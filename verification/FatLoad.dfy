/** What reading a file does to the buffer at `_end`: the FAT copy is the FAT on the card, the
    file goes behind it, and the result is the file's clusters one after the other. */
module FatLoad {
  import opened FatModel

  /** How far the pointer moves for one cluster. */
  function Stride(b: Bpb): nat {
    b.spc * b.bps
  }

  /** A read of no sectors reads one. */
  function ReadSize(num: nat): nat {
    if num < 1 then 1 else num
  }

  /** The buffer is large enough for reading `n` clusters from `ptr` on. */
  predicate Fits(b: Bpb, size: nat, ptr: nat, n: nat)
    decreases n
  {
    n == 0 || (ptr + SECTOR * ReadSize(b.spc) <= size && Fits(b, size, ptr + Stride(b), n - 1))
  }

  ghost predicate AreClusters(cs: seq<nat>) {
    forall i :: 0 <= i < |cs| ==> cs[i] >= 2
  }

  /** Where cluster number `i` of the chain goes. */
  function Place(b: Bpb, ptr: nat, i: nat): nat
    decreases i
  {
    if i == 0 then ptr else Place(b, ptr + Stride(b), i - 1)
  }

  lemma {:induction false} PlaceIsProduct(b: Bpb, ptr: nat, i: nat)
    ensures Place(b, ptr, i) == ptr + i * (b.spc * b.bps)
    decreases i
  {
    if i > 0 {
      PlaceIsProduct(b, ptr + Stride(b), i - 1);
      assert i * Stride(b) == (i - 1) * Stride(b) + Stride(b);
    }
  }

  /** The buffer after the clusters `cs` have been read to `ptr` and on. */
  function LoadChain(card: Card, b: Bpb, lba: nat, mem: seq<Byte>, ptr: nat, cs: seq<nat>): (r: seq<Byte>)
    requires Fits(b, |mem|, ptr, |cs|) && AreClusters(cs)
    ensures |r| == |mem|
    decreases |cs|
  {
    if cs == [] then mem
    else
      var mem1 := CopySectors(card, mem, ClusterSec(b, lba, cs[0]), ptr, ReadSize(b.spc)).0;
      LoadChain(card, b, lba, mem1, ptr + Stride(b), cs[1..])
  }

  /** Nothing below the pointer is touched. */
  lemma {:induction false} LoadChainFrame(card: Card, b: Bpb, lba: nat, mem: seq<Byte>, ptr: nat, cs: seq<nat>)
    requires Fits(b, |mem|, ptr, |cs|) && AreClusters(cs)
    requires ptr <= |mem|
    ensures LoadChain(card, b, lba, mem, ptr, cs)[..ptr] == mem[..ptr]
    decreases |cs|
  {
    if cs != [] {
      CopySectorsResult(card, mem, ClusterSec(b, lba, cs[0]), ptr, ReadSize(b.spc));
      var mem1 := CopySectors(card, mem, ClusterSec(b, lba, cs[0]), ptr, ReadSize(b.spc)).0;
      if |cs| > 1 {
        LoadChainFrame(card, b, lba, mem1, ptr + Stride(b), cs[1..]);
        assert LoadChain(card, b, lba, mem, ptr, cs)[..ptr] == mem1[..ptr + Stride(b)][..ptr];
      }
    }
  }

  /** The bytes of cluster `c` on the card. */
  function ClusterBytes(card: Card, b: Bpb, lba: nat, c: nat): (r: seq<Byte>)
    requires c >= 2 && SECTOR * (ClusterSec(b, lba, c) + b.spc) <= |card.data|
    ensures |r| == SECTOR * b.spc
  {
    card.data[SECTOR * ClusterSec(b, lba, c)..SECTOR * (ClusterSec(b, lba, c) + b.spc)]
  }

  ghost predicate ClusterReadable(card: Card, b: Bpb, lba: nat, c: nat) {
    c >= 2 && AllReadable(card, ClusterSec(b, lba, c), b.spc)
    && SECTOR * (ClusterSec(b, lba, c) + b.spc) <= |card.data|
  }

  ghost predicate AllClustersReadable(card: Card, b: Bpb, lba: nat, cs: seq<nat>) {
    forall i :: 0 <= i < |cs| ==> ClusterReadable(card, b, lba, cs[i])
  }

  /** Cluster number `i` of the chain ends up in its place, unharmed by the clusters that
      follow, whenever its own sectors are readable and a cluster's bytes do not exceed a
      stride. */
  lemma {:induction false} ClusterInPlace(card: Card, b: Bpb, lba: nat, mem: seq<Byte>, ptr: nat, cs: seq<nat>, i: nat)
    requires Fits(b, |mem|, ptr, |cs|) && AreClusters(cs)
    requires b.spc >= 1 && b.bps >= SECTOR && i < |cs| && ClusterReadable(card, b, lba, cs[i])
    ensures Place(b, ptr, i) + SECTOR * b.spc <= |mem|
    ensures LoadChain(card, b, lba, mem, ptr, cs)[Place(b, ptr, i)..Place(b, ptr, i) + SECTOR * b.spc]
            == ClusterBytes(card, b, lba, cs[i])
    decreases i
  {
    var mem1 := CopySectors(card, mem, ClusterSec(b, lba, cs[0]), ptr, b.spc).0;
    if i > 0 {
      ClusterInPlace(card, b, lba, mem1, ptr + Stride(b), cs[1..], i - 1);
    } else {
      CopySectorsResult(card, mem, ClusterSec(b, lba, cs[0]), ptr, b.spc);
      FirstClusterStays(card, b, lba, mem1, ptr, cs[1..]);
    }
  }

  /** What stands at `ptr` survives the loading of the clusters behind it. */
  lemma FirstClusterStays(card: Card, b: Bpb, lba: nat, mem: seq<Byte>, ptr: nat, cs: seq<nat>)
    requires Fits(b, |mem|, ptr + Stride(b), |cs|) && AreClusters(cs)
    requires ptr + SECTOR * b.spc <= |mem| && b.bps >= SECTOR
    ensures LoadChain(card, b, lba, mem, ptr + Stride(b), cs)[ptr..ptr + SECTOR * b.spc]
         == mem[ptr..ptr + SECTOR * b.spc]
  {
    StrideHolds(b);
    var top, end := ptr + Stride(b), ptr + SECTOR * b.spc;
    if cs != [] {
      var r := LoadChain(card, b, lba, mem, top, cs);
      LoadChainFrame(card, b, lba, mem, top, cs);
      forall k | ptr <= k < end
        ensures r[k] == mem[k]
      {
        assert r[..top][k] == mem[..top][k];
      }
    }
  }

  lemma StrideHolds(b: Bpb)
    requires b.bps >= SECTOR
    ensures SECTOR * b.spc <= Stride(b)
    ensures b.bps == SECTOR ==> SECTOR * b.spc == Stride(b)
  {
  }

  /** The contents of the file: its clusters in the order of the chain. */
  function Contents(card: Card, b: Bpb, lba: nat, cs: seq<nat>): seq<Byte>
    requires AllClustersReadable(card, b, lba, cs)
  {
    if cs == [] then []
    else
      assert ClusterReadable(card, b, lba, cs[0]);
      ClusterBytes(card, b, lba, cs[0]) + Contents(card, b, lba, cs[1..])
  }

  lemma {:induction false} ContentsLength(card: Card, b: Bpb, lba: nat, cs: seq<nat>)
    requires AllClustersReadable(card, b, lba, cs)
    ensures |Contents(card, b, lba, cs)| == |cs| * (SECTOR * b.spc)
    decreases |cs|
  {
    if cs != [] {
      assert ClusterReadable(card, b, lba, cs[0]);
      ContentsLength(card, b, lba, cs[1..]);
      assert |cs| * (SECTOR * b.spc) == (|cs| - 1) * (SECTOR * b.spc) + SECTOR * b.spc;
    }
  }

  /** The buffer and the pointer after the first cluster. */
  lemma FirstLoaded(card: Card, b: Bpb, lba: nat, mem: seq<Byte>, ptr: nat, cs: seq<nat>)
      returns (mem1: seq<Byte>, top: nat)
    requires Fits(b, |mem|, ptr, |cs|) && b.spc >= 1 && b.bps == SECTOR && cs != []
    requires AllClustersReadable(card, b, lba, cs)
    ensures ClusterReadable(card, b, lba, cs[0]) && AreClusters(cs)
    ensures top == ptr + SECTOR * b.spc <= |mem1| == |mem| && Fits(b, |mem1|, top, |cs| - 1)
    ensures LoadChain(card, b, lba, mem, ptr, cs) == LoadChain(card, b, lba, mem1, top, cs[1..])
    ensures LoadChain(card, b, lba, mem, ptr, cs)[ptr..top] == ClusterBytes(card, b, lba, cs[0])
  {
    StrideHolds(b);
    assert ClusterReadable(card, b, lba, cs[0]);
    ClusterInPlace(card, b, lba, mem, ptr, cs, 0);
    mem1, top := CopySectors(card, mem, ClusterSec(b, lba, cs[0]), ptr, b.spc).0, ptr + Stride(b);
  }

  lemma Adjacent(r: seq<Byte>, at: nat, top: nat, a: seq<Byte>, b: seq<Byte>)
    requires top == at + |a| && top + |b| <= |r| && r[at..top] == a && r[top..top + |b|] == b
    ensures r[at..at + |a + b|] == a + b
  {
  }

  /** With 512-byte sectors the buffer holds, from `ptr` on, the file without gaps. */
  lemma {:induction false} LoadedIsContents(card: Card, b: Bpb, lba: nat, mem: seq<Byte>, ptr: nat, cs: seq<nat>)
    requires Fits(b, |mem|, ptr, |cs|) && b.spc >= 1 && b.bps == SECTOR && ptr <= |mem|
    requires AllClustersReadable(card, b, lba, cs)
    ensures ptr + |Contents(card, b, lba, cs)| <= |mem|
    ensures LoadChain(card, b, lba, mem, ptr, cs)[ptr..ptr + |Contents(card, b, lba, cs)|]
            == Contents(card, b, lba, cs)
    decreases |cs|
  {
    if cs != [] {
      var mem1, top := FirstLoaded(card, b, lba, mem, ptr, cs);
      LoadedIsContents(card, b, lba, mem1, top, cs[1..]);
      var rest := Contents(card, b, lba, cs[1..]);
      Adjacent(LoadChain(card, b, lba, mem, ptr, cs), ptr, top, ClusterBytes(card, b, lba, cs[0]), rest);
      assert Contents(card, b, lba, cs) == ClusterBytes(card, b, lba, cs[0]) + rest;
    }
  }

  // ---- The whole read ---------------------------------------------------------------

  /** The first FAT of the volume, as it is on the card. */
  function CardFat(card: Card, b: Bpb, lba: nat): Fat
    requires SECTOR * (lba + b.rsc + FatSize(b)) <= |card.data|
  {
    Fat(card.data[SECTOR * (lba + b.rsc)..SECTOR * (lba + b.rsc + FatSize(b))], b.spf16 == 0)
  }

  /** The volume's boot record is at the start of the buffer, and the sectors from the boot
      record to one behind the FAT are readable. */
  ghost predicate Mounted(card: Card, lba: nat, mem: seq<Byte>) {
    && |mem| >= SECTOR && SECTOR * (lba + 1) <= |card.data|
    && mem[..SECTOR] == card.data[SECTOR * lba..SECTOR * (lba + 1)]
    && var b := ParseBpb(mem);
      && AllReadable(card, lba + 1, ReadSize(FatSize(b) + b.rsc)) && lba + 1 < WORD
      && SECTOR * (lba + 1 + FatSize(b) + b.rsc) <= |card.data|
      && FileStart(b) <= |mem|
  }

  /** Where the file goes: behind the boot record and the sectors read with the FAT. */
  function FileStart(b: Bpb): nat {
    SECTOR + SECTOR * ReadSize(FatSize(b) + b.rsc)
  }

  function LoadFat(card: Card, lba: nat, mem: seq<Byte>): (r: seq<Byte>)
    requires |mem| >= SECTOR && FileStart(ParseBpb(mem)) <= |mem|
    ensures |r| == |mem|
  {
    var b := ParseBpb(mem);
    CopySectors(card, mem, lba + 1, SECTOR, ReadSize(FatSize(b) + b.rsc)).0
  }

  /** The bytes at `_end + rsc * 512` are the FAT. */
  function FatInBuffer(b: Bpb, mem: seq<Byte>): Fat
    requires SECTOR * (b.rsc + FatSize(b)) <= |mem|
  {
    Fat(mem[SECTOR * b.rsc..SECTOR * (b.rsc + FatSize(b))], b.spf16 == 0)
  }

  lemma SameBpb(m: seq<Byte>, m': seq<Byte>)
    requires |m| >= SECTOR && |m'| >= SECTOR && m[..SECTOR] == m'[..SECTOR]
    ensures ParseBpb(m) == ParseBpb(m')
  {
  }

  /** After the FAT has been read the buffer below the file is the start of the partition: the
      boot record is unchanged, and the FAT copy is the FAT on the card. */
  lemma FatCopied(card: Card, lba: nat, mem: seq<Byte>)
    requires Mounted(card, lba, mem)
    ensures var b := ParseBpb(mem); var mem' := LoadFat(card, lba, mem);
      && mem'[..SECTOR] == mem[..SECTOR] && ParseBpb(mem') == b
      && SECTOR * (b.rsc + FatSize(b)) <= FileStart(b)
      && mem'[..SECTOR * (1 + FatSize(b) + b.rsc)] == card.data[SECTOR * lba..SECTOR * (lba + 1 + FatSize(b) + b.rsc)]
      && FatInBuffer(b, mem') == CardFat(card, b, lba)
  {
    var b := ParseBpb(mem);
    var mem' := LoadFat(card, lba, mem);
    TableRead(card, lba, mem, FatSize(b) + b.rsc, mem');
    SameBpb(mem, mem');
    FatInPlace(card, b, lba, mem', 1 + FatSize(b) + b.rsc);
  }

  lemma FatInPlace(card: Card, b: Bpb, lba: nat, mem: seq<Byte>, n: nat)
    requires b.rsc + FatSize(b) <= n && SECTOR * n <= |mem| && SECTOR * (lba + n) <= |card.data|
    requires mem[..SECTOR * n] == card.data[SECTOR * lba..SECTOR * (lba + n)]
    ensures FatInBuffer(b, mem) == CardFat(card, b, lba)
  {
    SliceOfSlice(card, lba, mem, b.rsc, FatSize(b), n);
    assert FatInBuffer(b, mem).bytes == CardFat(card, b, lba).bytes;
  }

  lemma TableRead(card: Card, lba: nat, mem: seq<Byte>, n: nat, mem': seq<Byte>)
    requires SECTOR + SECTOR * ReadSize(n) <= |mem| == |mem'| && SECTOR * (lba + 1 + n) <= |card.data|
    requires mem[..SECTOR] == card.data[SECTOR * lba..SECTOR * (lba + 1)]
    requires AllReadable(card, lba + 1, ReadSize(n))
    requires mem' == CopySectors(card, mem, lba + 1, SECTOR, ReadSize(n)).0
    ensures mem'[..SECTOR] == mem[..SECTOR]
    ensures mem'[..SECTOR * (1 + n)] == card.data[SECTOR * lba..SECTOR * (lba + 1 + n)]
  {
    CopySectorsResult(card, mem, lba + 1, SECTOR, ReadSize(n));
    StartOfPartition(card, lba, mem', n);
  }

  lemma StartOfPartition(card: Card, lba: nat, mem: seq<Byte>, n: nat)
    requires SECTOR * (1 + n) <= |mem| && SECTOR * (lba + 1 + n) <= |card.data|
    requires mem[..SECTOR] == card.data[SECTOR * lba..SECTOR * (lba + 1)]
    requires n > 0 ==> mem[SECTOR..SECTOR + SECTOR * n] == card.data[SECTOR * (lba + 1)..SECTOR * (lba + 1 + n)]
    ensures mem[..SECTOR * (1 + n)] == card.data[SECTOR * lba..SECTOR * (lba + 1 + n)]
  {
  }

  lemma SameSlice(s: seq<Byte>, s': seq<Byte>, top: nat, from: nat, to: nat, lo: nat, hi: nat)
    requires lo <= hi <= top <= |s| && from <= to <= |s'| && s[..top] == s'[from..to]
    ensures s[lo..hi] == s'[from + lo..from + hi]
  {
    forall k | lo <= k < hi
      ensures s[k] == s'[from + k]
    {
      assert s[..top][k] == s'[from..to][k];
    }
  }

  lemma SliceOfSlice(card: Card, lba: nat, mem: seq<Byte>, r: nat, f: nat, n: nat)
    requires r + f <= n && SECTOR * n <= |mem| && SECTOR * (lba + n) <= |card.data|
    requires mem[..SECTOR * n] == card.data[SECTOR * lba..SECTOR * (lba + n)]
    ensures mem[SECTOR * r..SECTOR * (r + f)] == card.data[SECTOR * (lba + r)..SECTOR * (lba + r + f)]
  {
    SameSlice(mem, card.data, SECTOR * n, SECTOR * lba, SECTOR * (lba + n), SECTOR * r, SECTOR * (r + f));
    assert SECTOR * lba + SECTOR * r == SECTOR * (lba + r) && SECTOR * lba + SECTOR * (r + f) == SECTOR * (lba + r + f);
  }

  /** A file is read correctly. The boot record and the FAT copy outlive the loading of the
      clusters, so that the chain the loop follows in the buffer is the chain on the card;
      the file's region is the concatenation of its clusters. */
  lemma ReadFileCorrect(card: Card, lba: nat, mem: seq<Byte>, cs: seq<nat>)
    requires Mounted(card, lba, mem)
    requires var b := ParseBpb(mem);
      && b.bps == SECTOR && b.spc >= 1 && Fits(b, |mem|, FileStart(b), |cs|)
      && AllClustersReadable(card, b, lba, cs)
    ensures var b := ParseBpb(mem);
      var mem' := LoadChain(card, b, lba, LoadFat(card, lba, mem), FileStart(b), cs);
      && mem'[..SECTOR] == mem[..SECTOR]
      && SECTOR * (b.rsc + FatSize(b)) <= |mem'|
      && FatInBuffer(b, mem') == CardFat(card, b, lba)
      && FileStart(b) + |Contents(card, b, lba, cs)| <= |mem'|
      && mem'[FileStart(b)..FileStart(b) + |Contents(card, b, lba, cs)|] == Contents(card, b, lba, cs)
  {
    var b := ParseBpb(mem);
    var mem1 := LoadFat(card, lba, mem);
    FatCopied(card, lba, mem);
    LoadChainFrame(card, b, lba, mem1, FileStart(b), cs);
    LowerPartKept(b, mem1, LoadChain(card, b, lba, mem1, FileStart(b), cs));
    LoadedIsContents(card, b, lba, mem1, FileStart(b), cs);
  }

  lemma LowerPartKept(b: Bpb, m: seq<Byte>, m': seq<Byte>)
    requires FileStart(b) <= |m| == |m'| && m'[..FileStart(b)] == m[..FileStart(b)]
    ensures SECTOR * (b.rsc + FatSize(b)) <= FileStart(b)
    ensures m'[..SECTOR] == m[..SECTOR]
    ensures FatInBuffer(b, m') == FatInBuffer(b, m)
  {
    var lo, hi := SECTOR * b.rsc, SECTOR * (b.rsc + FatSize(b));
    assert m'[..SECTOR] == m'[..FileStart(b)][..SECTOR];
    assert m[..SECTOR] == m[..FileStart(b)][..SECTOR];
    assert m'[lo..hi] == m'[..FileStart(b)][lo..hi];
    assert m[lo..hi] == m[..FileStart(b)][lo..hi];
  }
}
