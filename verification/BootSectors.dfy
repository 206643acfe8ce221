/** What mount_volume of Externals/FatFs/ff.c makes of the bytes of any boot sector, and the cluster sizes f_mkfs
    chooses by the size of the volume. */
module BootSectors {
  import opened Radix
  import opened FatTable
  import opened VolumeFormat

  /** A little-endian field of n bytes. */
  function Field(s: Sector, o: nat, n: nat): nat
    requires o + n <= 512
  {
    BytesValue(s[o..o + n])
  }

  lemma FieldIs(s: Sector, o: nat)
    ensures o + 2 <= 512 ==> Field(s, o, 2) == LdWord(s, o)
    ensures o + 4 <= 512 ==> Field(s, o, 4) == LdDword(s, o)
  {
    if o + 2 <= 512 {
      ShortValue(s[o..o + 2]);
    }
    if o + 4 <= 512 {
      ShortValue(s[o..o + 4]);
    }
  }

  lemma ShortValue(b: seq<Byte>)
    ensures |b| == 2 ==> BytesValue(b) == b[0] + 0x100 * (b[1] as int)
    ensures |b| == 4 ==>
            BytesValue(b) == b[0] + 0x100 * (b[1] as int) + 0x1_0000 * (b[2] as int) + 0x100_0000 * (b[3] as int)
  {
    if |b| == 2 {
      TakeByte(b, 1);
    }
    if |b| == 4 {
      TakeByte(b, 1);
      TakeByte(b, 2);
      TakeByte(b, 3);
    }
    hide BytesValue;
  }

  function FatSectors(s: Sector): nat {
    if Field(s, 22, 2) != 0 then Field(s, 22, 2) else Field(s, 36, 4)
  }

  function VolumeSectors(s: Sector): nat {
    if Field(s, 19, 2) != 0 then Field(s, 19, 2) else Field(s, 32, 4)
  }

  /** Reserved sectors, tables and the static root directory. */
  function SectorsBefore(s: Sector): nat {
    Field(s, 14, 2) + FatSectors(s) * s[16] + Field(s, 17, 2) / 16
  }

  /** A boot sector with usable sizes and at least one cluster. */
  predicate Usable(s: Sector) {
    && Field(s, 11, 2) == 512 && s[16] in {1, 2} && s[13] in {1, 2, 4, 8, 16, 32, 64, 128}
    && Field(s, 17, 2) % 16 == 0 && Field(s, 14, 2) != 0 && VolumeSectors(s) >= SectorsBefore(s) + s[13]
  }

  function ClusterCount(s: Sector): nat
    requires Usable(s)
  {
    (VolumeSectors(s) - SectorsBefore(s)) / s[13]
  }

  /** The sub-type goes by the number of clusters, and what it demands must hold. */
  predicate Consistent(s: Sector)
    requires Usable(s)
  {
    var n, bytes := ClusterCount(s), 512 * FatSectors(s);
    if n <= 4085 then Field(s, 17, 2) != 0 && (3 * (n + 2) + 1) / 2 <= bytes
    else if n <= 65525 then Field(s, 17, 2) != 0 && 2 * (n + 2) <= bytes
    else n <= 268435445 && Field(s, 17, 2) == 0 && Field(s, 42, 2) == 0 && 4 * (n + 2) <= bytes
  }

  /** Any boot sector whose system area ends below sector 2^32, at sector bsect of a disk of n sectors. */
  lemma MountIs(s: Sector, bsect: nat, n: nat)
    requires bsect + SectorsBefore(s) < 0x1_0000_0000
    ensures Mount(ReadBpb(s), bsect, n) ==
              if !Usable(s) || !Consistent(s) then NoFilesystem
              else
                var count, fat := ClusterCount(s), bsect + Field(s, 14, 2);
                var kind := if count <= 4085 then FAT12 else if count <= 65525 then FAT16 else FAT32;
                Mounted(Geometry(kind, fat, FatSectors(s), s[16], bsect + SectorsBefore(s), s[13], count + 2, n),
                        Field(s, 17, 2),
                        if kind == FAT32 then Field(s, 44, 4) else fat + FatSectors(s) * s[16])
  {
    BlockIs(s);
    SystemIs(s, bsect);
    UsableIs(s, bsect);
    if Usable(s) {
      ConsistentIs(s);
    }
    hide Field, ReadBpb, Mod32, FatSize, TotalSectors, SystemSectors, CountOf, Proper, Usable, FatSectors,
        VolumeSectors, SectorsBefore, ClusterCount, EntryBytes, Consistent;
  }

  lemma ConsistentIs(s: Sector)
    requires Usable(s)
    ensures var n := ClusterCount(s);
      var kind := KindOf(n);
      && Consistent(s) == (&& n <= MAX_FAT32 && FatSectors(s) >= (EntryBytes(kind, n + 2) + 511) / 512
                           && (if kind == FAT32 then Field(s, 42, 2) == 0 else Field(s, 17, 2) != 0)
                           && (kind == FAT32 ==> Field(s, 17, 2) == 0))
      && kind == if n <= 4085 then FAT12 else if n <= 65525 then FAT16 else FAT32
  {
    TableFits(KindOf(ClusterCount(s)), ClusterCount(s), FatSectors(s));
    hide Field, Usable, FatSectors, VolumeSectors, SectorsBefore, ClusterCount, EntryBytes;
  }

  lemma TableFits(kind: FatType, n: nat, f: nat)
    ensures (EntryBytes(kind, n + 2) + 511) / 512 <= f
       <==> 512 * f >= match kind case FAT12 => (3 * (n + 2) + 1) / 2 case FAT16 => 2 * (n + 2) case FAT32 => 4 * (n + 2)
  {
    RoundedUp(EntryBytes(kind, n + 2), f);
    Packed(n + 2);
  }

  lemma RoundedUp(x: nat, f: nat)
    ensures (x + 511) / 512 <= f <==> x <= 512 * f
  {
  }

  lemma Packed(n: nat)
    ensures EntryBytes(FAT12, n) == (3 * n + 1) / 2
  {
    var q, r := n / 2, n % 2;
    assert n == 2 * q + r;
    QuotientIs(n * 3, 2, 3 * q + r, r);
    QuotientIs(3 * n + 1, 2, 3 * q + 2 * r, 1 - r);
  }

  lemma BlockIs(s: Sector)
    ensures var b := ReadBpb(s);
      && b.bytsPerSec == Field(s, 11, 2) && b.csize == s[13] && b.nrsv == Field(s, 14, 2) && b.nFats == s[16]
      && b.nRootdir == Field(s, 17, 2) && b.version == Field(s, 42, 2) && b.root == Field(s, 44, 4)
      && FatSize(b) == FatSectors(s) && TotalSectors(b) == VolumeSectors(s)
  {
    FieldsRead(s);
    hide Field, ReadBpb;
  }

  lemma SystemIs(s: Sector, bsect: nat)
    requires bsect + SectorsBefore(s) < 0x1_0000_0000
    ensures var b, t := ReadBpb(s), FatSectors(s) * s[16];
      && SystemSectors(b) == SectorsBefore(s) && Mod32(FatSize(b) * b.nFats) == t
      && Mod32(bsect + SectorsBefore(s)) == bsect + SectorsBefore(s)
      && Mod32(bsect + Field(s, 14, 2)) == bsect + Field(s, 14, 2)
      && Mod32(bsect + Field(s, 14, 2) + t) == bsect + Field(s, 14, 2) + t
  {
    BlockIs(s);
    hide Field, ReadBpb, Mod32, FatSize, FatSectors;
    var t := FatSectors(s) * s[16];
    SmallMod(t);
    SmallMod(SectorsBefore(s));
    SmallMod(bsect + SectorsBefore(s));
    SmallMod(bsect + Field(s, 14, 2));
    SmallMod(bsect + Field(s, 14, 2) + t);
  }

  lemma UsableIs(s: Sector, bsect: nat)
    requires bsect + SectorsBefore(s) < 0x1_0000_0000
    ensures Usable(s) <==> Proper(ReadBpb(s)) && CountOf(ReadBpb(s)) != 0
    ensures Usable(s) ==> CountOf(ReadBpb(s)) == ClusterCount(s)
  {
    BlockIs(s);
    SystemIs(s, bsect);
    hide Field, ReadBpb, Mod32, FatSize, TotalSectors, SystemSectors, FatSectors, VolumeSectors, SectorsBefore;
    if Proper(ReadBpb(s)) && VolumeSectors(s) >= SectorsBefore(s) {
      AnyCluster(VolumeSectors(s) - SectorsBefore(s), s[13]);
    }
  }

  lemma FieldsRead(s: Sector)
    ensures ReadBpb(s) == Bpb(Field(s, 11, 2), s[13], Field(s, 14, 2), s[16], Field(s, 17, 2), Field(s, 19, 2),
                              Field(s, 32, 4), Field(s, 22, 2), Field(s, 36, 4), Field(s, 42, 2), Field(s, 44, 4))
  {
    hide Field, LdWord, LdDword;
    FieldIs(s, 11);
    FieldIs(s, 14);
    FieldIs(s, 17);
    FieldIs(s, 19);
    FieldIs(s, 32);
    FieldIs(s, 22);
    FieldIs(s, 36);
    FieldIs(s, 42);
    FieldIs(s, 44);
  }

  /** A volume that mounts and lies inside the disk has the geometry the file system relies on. */
  lemma MountedIsOk(s: Sector, bsect: nat, n: nat)
    requires bsect + SectorsBefore(s) < 0x1_0000_0000 && bsect + VolumeSectors(s) <= n < 0xFFFF_FFFF
    requires Mount(ReadBpb(s), bsect, n).Mounted?
    ensures Mount(ReadBpb(s), bsect, n).g.Ok()
  {
    MountIs(s, bsect, n);
    hide Mount, ReadBpb, Field;
    ClustersFit(VolumeSectors(s) - SectorsBefore(s), s[13]);
    FatTwice(FatSectors(s), s[16]);
  }

  lemma FatTwice(f: nat, n: nat)
    requires n in {1, 2}
    ensures f * n == n * f
  {
  }

  /** The cluster sizes chosen by f_mkfs, by the sectors of the volume. */
  lemma AuIs(kind: FatType, v: nat, szAu: nat)
    requires szAu == 0 || PowerUpTo128(szAu)
    ensures Au(kind, v, szAu) ==
              if szAu != 0 then szAu
              else if kind == FAT32 then
                if v < 0x2_0000 then 1 else if v < 0x4_0000 then 2 else if v < 0x8_0000 then 4
                else if v < 0x10_0000 then 8 else if v < 0x20_0000 then 16 else if v < 0x40_0000 then 32 else 64
              else
                if v < 0x1000 then 1 else if v < 0x4000 then 2 else if v < 0x1_0000 then 4
                else if v < 0x4_0000 then 8 else if v < 0x10_0000 then 16 else if v < 0x20_0000 then 32 else 64
  {
    var m, n := v / 0x2_0000, v / 0x1000;
    assert Reached(CST32, m, 0) == if m < 1 then 0 else if m < 2 then 1 else if m < 4 then 2 else if m < 8 then 3
                                   else if m < 16 then 4 else if m < 32 then 5 else 6;
    assert Reached(CST, n, 0) == if n < 1 then 0 else if n < 4 then 1 else if n < 16 then 2 else if n < 64 then 3
                                 else if n < 256 then 4 else if n < 512 then 5 else 6;
    hide Reached;
    SmallPowers();
  }

  lemma SmallPowers()
    ensures Pow2(0) == 1 && Pow2(1) == 2 && Pow2(2) == 4 && Pow2(3) == 8 && Pow2(4) == 16 && Pow2(5) == 32
    ensures Pow2(6) == 64
  {
  }
}
