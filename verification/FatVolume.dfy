/** Volumes as the FAT specification lays them out: the boot record byte by byte, and where the
    clusters are. The reader reads the file of such a volume. */
module FatVolume {
  import opened FatModel
  import opened FatLoad

  // ---- Fields -----------------------------------------------------------------------

  /** A field of a sector: `width` bytes at `offset`, the lowest first. */
  datatype Field = Field(offset: nat, width: nat, value: nat)

  predicate FitsWidth(f: Field) {
    && f.offset + f.width <= SECTOR
    && f.width in {1, 2, 4}
    && f.value < if f.width == 1 then 0x100 else if f.width == 2 then 0x1_0000 else WORD
  }

  function LittleEndian(value: nat, width: nat): (r: seq<Byte>)
    requires value < WORD && width <= 4
    ensures |r| == width && forall k :: 0 <= k < width ==> r[k] == ByteOf(value, k)
  {
    seq(width, k requires 0 <= k < width => ByteOf(value, k))
  }

  function Write(m: seq<Byte>, f: Field): (r: seq<Byte>)
    requires |m| == SECTOR && FitsWidth(f)
    ensures |r| == SECTOR && r[f.offset..f.offset + f.width] == LittleEndian(f.value, f.width)
  {
    m[..f.offset] + LittleEndian(f.value, f.width) + m[f.offset + f.width..]
  }

  lemma OthersStay(m: seq<Byte>, f: Field, offset: nat, width: nat)
    requires |m| == SECTOR && FitsWidth(f) && offset + width <= SECTOR
    requires offset + width <= f.offset || f.offset + f.width <= offset
    ensures Write(m, f)[offset..offset + width] == m[offset..offset + width]
  {
  }

  /** The sector `m` holds the field `f`. */
  predicate Has(m: seq<Byte>, f: Field) {
    |m| == SECTOR && FitsWidth(f) && m[f.offset..f.offset + f.width] == LittleEndian(f.value, f.width)
  }

  ghost predicate Apart(fs: seq<Field>) {
    && (forall i :: 0 <= i < |fs| ==> FitsWidth(fs[i]))
    && (forall i, j :: 0 <= i < j < |fs| ==> fs[i].offset + fs[i].width <= fs[j].offset)
  }

  /** A sector with all the fields written over the bytes `rest`. */
  function WriteAll(rest: seq<Byte>, fs: seq<Field>): (r: seq<Byte>)
    requires |rest| == SECTOR && forall i :: 0 <= i < |fs| ==> FitsWidth(fs[i])
    ensures |r| == SECTOR
  {
    if fs == [] then rest else Write(WriteAll(rest, fs[..|fs| - 1]), fs[|fs| - 1])
  }

  lemma {:induction false} AllThere(rest: seq<Byte>, fs: seq<Field>, i: nat)
    requires |rest| == SECTOR && Apart(fs) && i < |fs|
    ensures Has(WriteAll(rest, fs), fs[i])
    decreases |fs|
  {
    var before, f := fs[..|fs| - 1], fs[|fs| - 1];
    if i < |fs| - 1 {
      AllThere(rest, before, i);
      OthersStay(WriteAll(rest, before), f, fs[i].offset, fs[i].width);
    }
  }

  lemma ReadsByte(m: seq<Byte>, offset: nat, value: nat)
    requires Has(m, Field(offset, 1, value))
    ensures m[offset] == value
  {
    assert m[offset..offset + 1][0] == ByteOf(value, 0);
  }

  lemma Reads16(m: seq<Byte>, offset: nat, value: nat)
    requires Has(m, Field(offset, 2, value))
    ensures Le16(m, offset) == value
  {
    assert m[offset..offset + 2][0] == ByteOf(value, 0) && m[offset..offset + 2][1] == ByteOf(value, 1);
  }

  lemma Reads32(m: seq<Byte>, offset: nat, value: nat)
    requires Has(m, Field(offset, 4, value))
    ensures Le32(m, offset) == value
  {
    var four := m[offset..offset + 4];
    assert m[offset] == four[0] && m[offset + 1] == four[1] && m[offset + 2] == four[2] && m[offset + 3] == four[3];
    BytesMakeWord(value);
  }

  // ---- The boot record --------------------------------------------------------------

  /** The fields of the BIOS parameter block by their meaning. */
  datatype Volume = Volume(
    bytesPerSector: nat,
    sectorsPerCluster: nat,
    reservedSectors: nat,
    fats: nat,
    rootEntries: nat,
    fatSize16: nat,
    fatSize32: nat)

  /** Where the specification puts them: section "Boot Sector and BPB Structure". */
  function Layout(v: Volume): seq<Field> {
    [ Field(11, 2, v.bytesPerSector),
      Field(13, 1, v.sectorsPerCluster),
      Field(14, 2, v.reservedSectors),
      Field(16, 1, v.fats),
      Field(17, 2, v.rootEntries),
      Field(22, 2, v.fatSize16),
      Field(36, 4, v.fatSize32) ]
  }

  ghost predicate IsVolume(v: Volume) {
    Apart(Layout(v))
  }

  function BootRecord(v: Volume, rest: seq<Byte>): (r: seq<Byte>)
    requires |rest| == SECTOR && forall i :: 0 <= i < 7 ==> FitsWidth(Layout(v)[i])
    ensures |r| == SECTOR
  {
    WriteAll(rest, Layout(v))
  }

  /** The fields the reader should find. */
  function BpbOf(v: Volume): Bpb {
    Bpb(v.bytesPerSector, v.sectorsPerCluster, v.reservedSectors, v.fats, v.rootEntries, v.fatSize16, v.fatSize32)
  }

  /** The reader finds in a boot record the volume it describes. */
  lemma ParsesBack(v: Volume, rest: seq<Byte>)
    requires |rest| == SECTOR && IsVolume(v)
    ensures ParseBpb(BootRecord(v, rest)) == BpbOf(v)
  {
    var m, fs := BootRecord(v, rest), Layout(v);
    forall i: nat | i < 7
      ensures Has(m, fs[i])
    {
      AllThere(rest, fs, i);
    }
    assert Has(m, fs[0]) && Has(m, fs[1]) && Has(m, fs[2]) && Has(m, fs[3]) && Has(m, fs[4]) && Has(m, fs[5])
        && Has(m, fs[6]);
    Reads16(m, 11, v.bytesPerSector);
    ReadsByte(m, 13, v.sectorsPerCluster);
    Reads16(m, 14, v.reservedSectors);
    ReadsByte(m, 16, v.fats);
    Reads16(m, 17, v.rootEntries);
    Reads16(m, 22, v.fatSize16);
    Reads32(m, 36, v.fatSize32);
  }

  // ---- Where things are -------------------------------------------------------------

  function FatSectors(v: Volume): nat {
    if v.fatSize16 != 0 then v.fatSize16 else v.fatSize32
  }

  /** Root directory entries have 32 bytes. */
  function RootDirSectors(v: Volume): nat
    requires v.bytesPerSector > 0
  {
    (v.rootEntries * 32 + v.bytesPerSector - 1) / v.bytesPerSector
  }

  function FirstDataSector(v: Volume): nat
    requires v.bytesPerSector > 0
  {
    v.reservedSectors + v.fats * FatSectors(v) + RootDirSectors(v)
  }

  /** The first sector of cluster `c`, counted from the boot record. */
  function FirstSectorOf(v: Volume, c: nat): nat
    requires v.bytesPerSector > 0 && c >= 2
  {
    (c - 2) * v.sectorsPerCluster + FirstDataSector(v)
  }

  /** Cluster `c` of the volume at sector `lba` is on the card and can be read. */
  ghost predicate ClusterOnCard(card: Card, v: Volume, lba: nat, c: nat)
    requires v.bytesPerSector > 0
  {
    && c >= 2
    && AllReadable(card, lba + FirstSectorOf(v, c), v.sectorsPerCluster) && lba + FirstSectorOf(v, c) < WORD
    && SECTOR * (lba + FirstSectorOf(v, c) + v.sectorsPerCluster) <= |card.data|
  }

  ghost predicate FileOnCard(card: Card, v: Volume, lba: nat, cs: seq<nat>)
    requires v.bytesPerSector > 0
  {
    forall i :: 0 <= i < |cs| ==> ClusterOnCard(card, v, lba, cs[i])
  }

  /** The file with the clusters `cs`: their sectors on the card, one after the other. */
  ghost function FileBytes(card: Card, v: Volume, lba: nat, cs: seq<nat>): seq<Byte>
    requires v.bytesPerSector > 0 && FileOnCard(card, v, lba, cs)
  {
    if cs == [] then []
    else
      assert ClusterOnCard(card, v, lba, cs[0]);
      var s := lba + FirstSectorOf(v, cs[0]);
      card.data[SECTOR * s..SECTOR * (s + v.sectorsPerCluster)] + FileBytes(card, v, lba, cs[1..])
  }

  /** The volume `v` lies on the card from sector `lba` on, with 512-byte sectors, its boot
      record is in the buffer, its first FAT and one sector more can be read, and `size` bytes
      of buffer hold these and `n` clusters. */
  ghost predicate Present(card: Card, v: Volume, lba: nat, mem: seq<Byte>, rest: seq<Byte>, n: nat) {
    && |rest| == SECTOR && IsVolume(v) && v.bytesPerSector == SECTOR && v.sectorsPerCluster >= 1
    && v.reservedSectors >= 1 && (v.fatSize16 == 0 ==> v.rootEntries == 0)
    && var top := 1 + v.reservedSectors + FatSectors(v);
      && SECTOR * (lba + top) <= |card.data| && lba + 1 < WORD
      && SECTOR * top + n * (SECTOR * v.sectorsPerCluster) <= |mem|
      && card.data[SECTOR * lba..SECTOR * (lba + 1)] == BootRecord(v, rest) == mem[..SECTOR]
      && AllReadable(card, lba + 1, v.reservedSectors + FatSectors(v))
  }

  lemma SpecifiedAlike(v: Volume, b: Bpb, c: nat)
    requires b == BpbOf(v) && c >= 2 && v.bytesPerSector == SECTOR
    ensures SpecClusterSec(b, c) == FirstSectorOf(v, c)
  {
    var fats, clusters := v.fats * FatSectors(v), (c - 2) * v.sectorsPerCluster;
    assert FatSize(b) == FatSectors(v);
    assert b.nf * FatSize(b) == fats && (c - 2) * b.spc == clusters;
  }

  lemma IsItsRest(x: nat)
    requires x < WORD
    ensures x % 0x1_0000_0000 == x
  {
  }

  lemma SectorWhereSpecified(v: Volume, b: Bpb, lba: nat, c: nat)
    requires b == BpbOf(v) && c >= 2
    requires v.bytesPerSector == SECTOR && (v.fatSize16 == 0 ==> v.rootEntries == 0)
    requires lba + FirstSectorOf(v, c) < WORD
    ensures ClusterSec(b, lba, c) == lba + FirstSectorOf(v, c)
  {
    ClusterSecIsSpecified(b, lba, c);
    SpecifiedAlike(v, b, c);
    IsItsRest(lba + FirstSectorOf(v, c));
  }

  lemma ClusterWhereSpecified(card: Card, v: Volume, b: Bpb, lba: nat, c: nat)
    requires b == BpbOf(v)
    requires v.bytesPerSector == SECTOR && (v.fatSize16 == 0 ==> v.rootEntries == 0) && ClusterOnCard(card, v, lba, c)
    ensures ClusterSec(b, lba, c) == lba + FirstSectorOf(v, c) && ClusterReadable(card, b, lba, c)
  {
    SectorWhereSpecified(v, b, lba, c);
  }

  lemma {:induction false} ContentsAreBytes(card: Card, v: Volume, b: Bpb, lba: nat, cs: seq<nat>)
    requires b == BpbOf(v)
    requires v.bytesPerSector == SECTOR && (v.fatSize16 == 0 ==> v.rootEntries == 0) && FileOnCard(card, v, lba, cs)
    ensures AllClustersReadable(card, b, lba, cs) && Contents(card, b, lba, cs) == FileBytes(card, v, lba, cs)
    decreases |cs|
  {
    if cs != [] {
      assert ClusterOnCard(card, v, lba, cs[0]);
      ClusterWhereSpecified(card, v, b, lba, cs[0]);
      ContentsAreBytes(card, v, b, lba, cs[1..]);
      forall i | 0 <= i < |cs|
        ensures ClusterReadable(card, b, lba, cs[i])
      {
        assert i > 0 ==> cs[i] == cs[1..][i - 1];
      }
    }
  }

  lemma ProductIsNat(n: nat, m: nat)
    ensures n * m >= 0
  {
  }

  lemma {:induction false} RoomFits(b: Bpb, size: nat, ptr: nat, n: nat)
    requires b.bps == SECTOR && b.spc >= 1 && ptr + n * (SECTOR * b.spc) <= size
    ensures Fits(b, size, ptr, n)
    decreases n
  {
    if n > 0 {
      assert n * (SECTOR * b.spc) == (n - 1) * (SECTOR * b.spc) + SECTOR * b.spc && (n - 1) * (SECTOR * b.spc) >= 0;
      StrideHolds(b);
      RoomFits(b, size, ptr + Stride(b), n - 1);
    }
  }

  /** What the buffer holds when the file with clusters `cs` has been read: the first FAT at the
      sector where the volume has it, and behind it and one more sector the file. */
  ghost predicate IsRead(card: Card, v: Volume, lba: nat, mem: seq<Byte>, cs: seq<nat>)
    requires v.bytesPerSector > 0 && FileOnCard(card, v, lba, cs)
  {
    var fat, file := v.reservedSectors, FileBytes(card, v, lba, cs);
    var top := SECTOR * (1 + fat + FatSectors(v));
    && top + |file| <= |mem| && mem[top..top + |file|] == file
    && SECTOR * (lba + fat + FatSectors(v)) <= |card.data|
    && mem[SECTOR * fat..SECTOR * (fat + FatSectors(v))]
       == card.data[SECTOR * (lba + fat)..SECTOR * (lba + fat + FatSectors(v))]
  }

  lemma SameFatBytes(card: Card, b: Bpb, lba: nat, mem: seq<Byte>, rsc: nat, fat: nat)
    requires rsc == b.rsc && fat == FatSize(b)
    requires SECTOR * (rsc + fat) <= |mem| && SECTOR * (lba + rsc + fat) <= |card.data|
    requires FatInBuffer(b, mem) == CardFat(card, b, lba)
    ensures mem[SECTOR * rsc..SECTOR * (rsc + fat)] == card.data[SECTOR * (lba + rsc)..SECTOR * (lba + rsc + fat)]
  {
    assert FatInBuffer(b, mem).bytes == CardFat(card, b, lba).bytes;
  }

  lemma LoadedIsRead(card: Card, v: Volume, b: Bpb, lba: nat, mem: seq<Byte>, cs: seq<nat>)
    requires v.bytesPerSector > 0 && FileOnCard(card, v, lba, cs) && b == BpbOf(v)
    requires AllClustersReadable(card, b, lba, cs) && Contents(card, b, lba, cs) == FileBytes(card, v, lba, cs)
    requires FileStart(b) == SECTOR * (1 + v.reservedSectors + FatSectors(v))
    requires var top, file := FileStart(b), Contents(card, b, lba, cs);
      top + |file| <= |mem| && mem[top..top + |file|] == file
    requires SECTOR * (b.rsc + FatSize(b)) <= |mem| && SECTOR * (lba + b.rsc + FatSize(b)) <= |card.data|
    requires FatInBuffer(b, mem) == CardFat(card, b, lba)
    ensures IsRead(card, v, lba, mem, cs)
  {
    SameFatBytes(card, b, lba, mem, v.reservedSectors, FatSectors(v));
  }

  lemma PresentParses(card: Card, v: Volume, lba: nat, mem: seq<Byte>, rest: seq<Byte>, n: nat)
    requires Present(card, v, lba, mem, rest, n)
    ensures |mem| >= SECTOR && ParseBpb(mem) == BpbOf(v)
  {
    ProductIsNat(n, SECTOR * v.sectorsPerCluster);
    ParsesBack(v, rest);
    SameBpb(mem, BootRecord(v, rest));
  }

  lemma PresentIsMounted(card: Card, v: Volume, lba: nat, mem: seq<Byte>, rest: seq<Byte>, n: nat, b: Bpb)
    requires Present(card, v, lba, mem, rest, n) && |mem| >= SECTOR && ParseBpb(mem) == b == BpbOf(v)
    ensures FileStart(b) == SECTOR * (1 + v.reservedSectors + FatSectors(v)) && Fits(b, |mem|, FileStart(b), n)
    ensures Mounted(card, lba, mem)
  {
    ProductIsNat(n, SECTOR * v.sectorsPerCluster);
    RoomFits(b, |mem|, FileStart(b), n);
  }

  /** A file of a volume is read correctly: behind the boot record, the reserved sectors and the
      first FAT, one sector further on, the buffer holds the sectors of its clusters; and the
      FAT itself is at the sector the volume says. */
  lemma VolumeIsRead(card: Card, v: Volume, lba: nat, mem: seq<Byte>, rest: seq<Byte>, cs: seq<nat>)
    requires Present(card, v, lba, mem, rest, |cs|) && FileOnCard(card, v, lba, cs)
    ensures Mounted(card, lba, mem) && AreClusters(cs) && ParseBpb(mem) == BpbOf(v)
    ensures var b := BpbOf(v); Fits(b, |mem|, FileStart(b), |cs|)
    ensures IsRead(card, v, lba, LoadChain(card, BpbOf(v), lba, LoadFat(card, lba, mem), FileStart(BpbOf(v)), cs), cs)
  {
    var b := BpbOf(v);
    PresentParses(card, v, lba, mem, rest, |cs|);
    PresentIsMounted(card, v, lba, mem, rest, |cs|, b);
    ContentsAreBytes(card, v, b, lba, cs);
    ReadFileCorrect(card, lba, mem, cs);
    LoadedIsRead(card, v, b, lba, LoadChain(card, b, lba, LoadFat(card, lba, mem), FileStart(b), cs), cs);
  }
}
