/** The FAT reader as its source has it: one flat buffer at `_end`, filled by block reads that
    may fail, with the boot record, the FAT and the file at computed offsets. */
module FatReader {
  import opened FatModel
  import opened FatLoad
  import opened FatLoop
  import opened FatVolume

  const RAM_LIMIT: nat := 0x4000_0000

  /** What a boot record must look like, and the partition entry that points to it. */
  predicate Bootable(card: Card) {
    && Readable(card, 0)
    && var mbr := SectorBytes(card, 0);
      && mbr[510] == 0x55 && mbr[511] == 0xAA && (mbr[0x1C2] == 0xE || mbr[0x1C2] == 0xC)
      && Readable(card, Le32(mbr, 0x1C6)) && HasFatName(SectorBytes(card, Le32(mbr, 0x1C6)))
  }

  /** The letters FAT at offset 54 (FAT16) or 82 (FAT32). */
  predicate HasFatName(m: seq<Byte>)
    requires |m| >= SECTOR
  {
    || (m[54] == 'F' as int && m[55] == 'A' as int && m[56] == 'T' as int)
    || (m[82] == 'F' as int && m[83] == 'A' as int && m[84] == 'T' as int)
  }

  /** A master boot record: type and first sector of the first partition, whose entry is at
      offset 446, and the signature. */
  function MasterRecord(kind: nat, start: nat, signature: nat, rest: seq<Byte>): (r: seq<Byte>)
    requires |rest| == SECTOR && kind < 0x100 && start < WORD && signature < 0x1_0000
    ensures |r| == SECTOR
  {
    WriteAll(rest, [Field(446 + 4, 1, kind), Field(446 + 8, 4, start), Field(510, 2, signature)])
  }

  /** The specification's place for the file system's name: 54 on FAT16, 82 on FAT32. */
  predicate NamesFat(m: seq<Byte>) {
    |m| == SECTOR && (m[54..57] == [0x46, 0x41, 0x54] || m[82..85] == [0x46, 0x41, 0x54])
  }

  lemma NameIsFat(m: seq<Byte>)
    requires |m| == SECTOR
    ensures HasFatName(m) <==> NamesFat(m)
  {
    assert m[54..57] == [m[54], m[55], m[56]] && m[82..85] == [m[82], m[83], m[84]];
  }

  /** A card boots if and only if it is signed, its first partition is of the LBA type of FAT16
      or FAT32, and its boot record can be read and names the file system. */
  lemma BootableExactly(card: Card, kind: nat, start: nat, signature: nat, rest: seq<Byte>)
    requires |rest| == SECTOR && kind < 0x100 && start < WORD && signature < 0x1_0000
    requires Readable(card, 0) && SectorBytes(card, 0) == MasterRecord(kind, start, signature, rest)
    ensures Le32(SectorBytes(card, 0), 0x1C6) == start
    ensures Bootable(card) <==>
      signature == 0xAA55 && kind in {0x0E, 0x0C} && Readable(card, start) && NamesFat(SectorBytes(card, start))
  {
    var m, fs := SectorBytes(card, 0), [Field(446 + 4, 1, kind), Field(446 + 8, 4, start), Field(510, 2, signature)];
    AllThere(rest, fs, 0);
    AllThere(rest, fs, 1);
    AllThere(rest, fs, 2);
    assert Has(m, fs[0]) && Has(m, fs[1]) && Has(m, fs[2]);
    ReadsByte(m, 450, kind);
    Reads32(m, 454, start);
    Reads16(m, 510, signature);
    if Readable(card, start) {
      NameIsFat(SectorBytes(card, start));
    }
  }

  class FatReader {
    const card: Card
    const mem: array<Byte>
    var partitionLba: nat

    constructor (card: Card, mem: array<Byte>)
      ensures this.card == card && this.mem == mem && partitionLba == 0
    {
      this.card, this.mem, partitionLba := card, mem, 0;
    }

    ghost predicate Valid() {
      SECTOR <= mem.Length <= RAM_LIMIT
    }

    /** The inner loop of `sd_readblock`: one sector comes through the data port. */
    method ReadSector(n: nat, at: nat)
      requires Readable(card, n) && at + SECTOR <= mem.Length
      modifies mem
      ensures mem[..] == Overlay(old(mem[..]), at, SectorBytes(card, n))
    {
      ghost var mem0 := mem[..];
      var d := 0;
      while d < SECTOR
        invariant d <= SECTOR
        invariant forall i :: at <= i < at + d ==> mem[i] == card.data[SECTOR * n + (i - at)]
        invariant forall i :: 0 <= i < mem.Length && !(at <= i < at + d) ==> mem[i] == mem0[i]
      {
        mem[at + d] := card.data[SECTOR * n + d];
        d := d + 1;
      }
    }

    /** The loop of `sd_readblock`: sectors until one cannot be read. */
    method ReadSectors(lba: nat, at: nat, num: nat) returns (ok: bool)
      requires at + SECTOR * num <= mem.Length
      modifies mem
      ensures (mem[..], ok) == CopySectors(card, old(mem[..]), lba, at, num)
    {
      ghost var final := CopySectors(card, mem[..], lba, at, num);
      ghost var now := mem[..];
      var c: nat, buf: nat := 0, at;
      while c < num
        invariant c <= num && mem[..] == now && CopyPending(card, now, lba + c, buf, num - c, final)
      {
        CopyStops(card, now, lba + c, buf, num - c, final);
        if !Readable(card, lba + c) {
          return false;
        }
        ReadSector(lba + c, buf);
        CopyStep(card, now, lba + c, buf, num - c, final, mem[..]);
        c, buf, now := c + 1, buf + SECTOR, mem[..];
      }
      CopyStops(card, now, lba + c, buf, num - c, final);
      return true;
    }

    /** `sd_readblock`: the number of bytes read, or 0. */
    method ReadBlock(lba: nat, at: nat, num: nat) returns (bytes: nat)
      requires Valid() && at + SECTOR * ReadSize(num) <= mem.Length
      modifies mem
      ensures var n := if num == 0 then 1 else num;
        && mem[..] == CopySectors(card, old(mem[..]), lba, at, n).0
        && bytes == if AllReadable(card, lba, n) then 512 * n else 0
    {
      var left := if num < 1 then 1 else num;
      CopyOk(card, mem[..], lba, at, left);
      var ok := ReadSectors(lba, at, left);
      bytes := if ok then (left * SECTOR) % WORD else 0;
    }

    /** A read of one sector to the start of the buffer. */
    method ReadFirst(n: nat) returns (ok: bool)
      requires Valid()
      modifies mem
      ensures ok <==> Readable(card, n)
      ensures ok ==> mem[..SECTOR] == SectorBytes(card, n)
    {
      CopySectorsResult(card, mem[..], n, 0, ReadSize(1));
      assert AllReadable(card, n, 1) <==> Readable(card, n);
      ghost var after := CopySectors(card, mem[..], n, 0, ReadSize(1)).0;
      var r := ReadBlock(n, 0, 1);
      assert mem[..SECTOR] == after[0..SECTOR];
      ok := r != 0;
    }

    /** `fat_getpartition`: on success the boot record of the partition is in the buffer. */
    method GetPartition() returns (ok: bool)
      requires Valid()
      modifies this`partitionLba, mem
      ensures ok <==> Bootable(card)
      ensures ok ==> partitionLba == Le32(SectorBytes(card, 0), 0x1C6) && Readable(card, partitionLba)
      ensures ok ==> mem[..SECTOR] == SectorBytes(card, partitionLba)
    {
      var r := ReadFirst(0);
      if !r {
        return false;
      }
      var mbr := mem[..SECTOR];
      if mbr[510] != 0x55 || mbr[511] != 0xAA {
        return false;
      }
      if mbr[0x1C2] != 0xE && mbr[0x1C2] != 0xC {
        return false;
      }
      partitionLba := Le32(mbr, 0x1C6);
      r := ReadFirst(partitionLba);
      if !r {
        return false;
      }
      ok := HasFatName(mem[..SECTOR]);
    }

    /** The first half of `fat_readfile`: where the data sectors begin, and the FAT. A read
        that fails counts as no bytes. */
    method ReadTable(ghost b: Bpb) returns (data: nat, dataSec: nat)
      requires Valid() && ParseBpb(mem[..]) == b && FileStart(b) <= mem.Length && partitionLba + 1 < WORD
      modifies mem
      ensures mem[..] == LoadFat(card, partitionLba, old(mem[..]))
      ensures data == DataStart(card, b, partitionLba) && dataSec == DataSec(b, partitionLba)
    {
      var bpb := ParseBpb(mem[..]);
      dataSec := DataSec(bpb, partitionLba);
      var sectors := FatSize(bpb) + bpb.rsc;
      var lba := (partitionLba + 1) % WORD;
      assert lba == partitionLba + 1;
      var s := ReadBlock(lba, SECTOR, sectors);
      data := SECTOR + s;
    }

    /** One turn of the loop of `fat_readfile`; all fields, and the FAT entry, are read from
        the buffer again after the load. */
    method ReadCluster(ghost b: Bpb, dataSec: nat, ptr: nat, cluster: nat) returns (ptr': nat, next: nat)
      requires Valid() && ParseableAt(b, mem[..]) && dataSec == DataSec(b, partitionLba)
      requires SECTOR <= ptr && CanTurn(b, Loop(mem[..], ptr, cluster))
      modifies mem
      ensures ParseableAt(b, mem[..])
      ensures Loop(mem[..], ptr', next) == Turn(card, b, partitionLba, Loop(old(mem[..]), ptr, cluster))
    {
      ghost var before := mem[..];
      var spc := ParseBpb(mem[..]).spc;
      var n := ReadBlock(SectorOf(spc, dataSec, cluster), ptr, spc);
      BootKept(card, b, before, ClusterSec(b, partitionLba, cluster), ptr, mem[..]);
      var bpb := ParseBpb(mem[..]);
      ptr' := ptr + Stride(bpb);
      next := EntryAt(bpb, mem[..], cluster);
    }

    /** `fat_readfile`: the offset of the file in the buffer. The source tests neither whether
        the FAT could be read nor whether the loop ends; `t` is the run of the loop. */
    method ReadFile(first: nat, ghost t: seq<Loop>) returns (data: nat)
      requires Valid() && FileStart(ParseBpb(mem[..])) <= mem.Length && partitionLba + 1 < WORD
      requires IsRun(card, ParseBpb(mem[..]), partitionLba, t)
      requires t[0] == Begin(card, ParseBpb(mem[..]), partitionLba, mem[..], first)
      modifies mem
      ensures data == t[0].ptr && mem[..] == t[|t| - 1].mem
    {
      ghost var b := ParseBpb(mem[..]);
      BootKeptByTable(card, partitionLba, mem[..]);
      var dataSec: nat;
      data, dataSec := ReadTable(b);
      var ptr: nat, cluster: nat := data, first;
      ghost var i := 0;
      while cluster > 1 && cluster < CHAIN_END
        invariant i < |t| && t[i] == Loop(mem[..], ptr, cluster)
        invariant SECTOR <= ptr && ParseableAt(b, mem[..])
        decreases |t| - i
      {
        EndIsDead(card, b, partitionLba, t, i);
        ptr, cluster := ReadCluster(b, dataSec, ptr, cluster);
        i := i + 1;
      }
      EndIsDead(card, b, partitionLba, t, i);
    }

    /** `fat_readfile` on a mounted volume, for the chain `cs` on the card. */
    method ReadMounted(first: nat, ghost cs: seq<nat>) returns (data: nat)
      requires Valid() && Mounted(card, partitionLba, mem[..])
      requires IsChain(CardFat(card, ParseBpb(mem[..]), partitionLba), first, cs)
      requires Fits(ParseBpb(mem[..]), mem.Length, FileStart(ParseBpb(mem[..])), |cs|)
      modifies mem
      ensures AreClusters(cs) && data == FileStart(ParseBpb(old(mem[..])))
      ensures mem[..] == LoadChain(card, ParseBpb(old(mem[..])), partitionLba,
                                   LoadFat(card, partitionLba, old(mem[..])), data, cs)
    {
      ghost var t := MountedLoop(card, partitionLba, mem[..], first, cs);
      data := ReadFile(first, t);
    }

    /** `fat_readfile` on a volume given by its boot record. */
    method ReadVolume(first: nat, ghost v: Volume, ghost rest: seq<Byte>, ghost cs: seq<nat>) returns (data: nat)
      requires Valid() && Present(card, v, partitionLba, mem[..], rest, |cs|) && FileOnCard(card, v, partitionLba, cs)
      requires IsChain(CardFat(card, BpbOf(v), partitionLba), first, cs)
      modifies mem
      ensures data == SECTOR * (1 + v.reservedSectors + FatSectors(v)) && IsRead(card, v, partitionLba, mem[..], cs)
    {
      VolumeIsRead(card, v, partitionLba, mem[..], rest, cs);
      data := ReadMounted(first, cs);
    }
  }

  /** A run goes on exactly at the states that are not its last. */
  lemma EndIsDead(card: Card, b: Bpb, lba: nat, t: seq<Loop>, i: nat)
    requires IsRun(card, b, lba, t) && i < |t|
    ensures Live(t[i].cluster) <==> i < |t| - 1
    ensures i < |t| - 1 ==> IsTurn(card, b, lba, t[i], t[i + 1])
  {
    assert i < |t| - 1 ==> IsTurn(card, b, lba, t[i], t[i + 1]);
  }

  ghost predicate ParseableAt(b: Bpb, m: seq<Byte>) {
    |m| >= SECTOR && ParseBpb(m) == b
  }

  /** A read to `at`, behind the boot record, leaves the boot record as it was. */
  lemma BootKept(card: Card, b: Bpb, m: seq<Byte>, n: nat, at: nat, m': seq<Byte>)
    requires ParseableAt(b, m) && SECTOR <= at && at + SECTOR * ReadSize(b.spc) <= |m|
    requires m' == CopySectors(card, m, n, at, ReadSize(b.spc)).0
    ensures ParseableAt(b, m')
  {
    CopySectorsResult(card, m, n, at, ReadSize(b.spc));
    assert m'[..SECTOR] == m'[..at][..SECTOR];
    assert m[..SECTOR] == m[..at][..SECTOR];
    SameBpb(m, m');
  }

  lemma BootKeptByTable(card: Card, lba: nat, m: seq<Byte>)
    requires |m| >= SECTOR && FileStart(ParseBpb(m)) <= |m|
    ensures ParseableAt(ParseBpb(m), LoadFat(card, lba, m))
  {
    CopySectorsResult(card, m, lba + 1, SECTOR, ReadSize(FatSize(ParseBpb(m)) + ParseBpb(m).rsc));
    SameBpb(m, LoadFat(card, lba, m));
  }
}
