/** The packed file allocation table of Externals/FatFs/ff.c as a function of the sectors that hold
    it: 12-, 16- and 28-bit entries (the last in 32-bit cells) in 512-byte sectors. */
module FatTable {
  import opened Radix

  const SS: nat := 512

  type Sector = s: seq<Byte> | |s| == 512 witness seq(512, i => 0)

  datatype FatType = FAT12 | FAT16 | FAT32

  /** Bytes that n entries take up. */
  function EntryBytes(kind: FatType, n: nat): nat {
    match kind
    case FAT12 => n * 3 / 2 + n % 2
    case FAT16 => n * 2
    case FAT32 => n * 4
  }

  /** What mounting leaves fixed in the FATFS object, and the size of the disk. */
  datatype Geometry = Geometry(kind: FatType, fatbase: nat, fsize: nat, nFats: nat,
                               database: nat, csize: nat, nFatent: nat, nSectors: nat)
  {
    /** Bytes the entries take up, as mount_volume computes them. */
    function FatBytes(): nat {
      EntryBytes(kind, nFatent)
    }

    function MaxClusters(): nat {
      match kind
      case FAT12 => 0xFF5
      case FAT16 => 0xFFF5
      case FAT32 => 0x0FFF_FFF5
    }

    /** Entries are taken modulo this. */
    function Modulus(): (m: nat)
      ensures m > 1
    {
      match kind
      case FAT12 => 0x1000
      case FAT16 => 0x1_0000
      case FAT32 => 0x1000_0000
    }

    /** The checks mount_volume makes, on a disk whose sector numbers fit 32 bits. */
    predicate Ok() {
      && fatbase > 0 && (nFats == 1 || nFats == 2)
      && fatbase + nFats * fsize <= database
      && csize in {1, 2, 4, 8, 16, 32, 64, 128}
      && 3 <= nFatent <= MaxClusters() + 2
      && (FatBytes() + 511) / 512 <= fsize
      && database + csize * (nFatent - 2) <= nSectors < 0xFFFF_FFFF
    }

    predicate InFat1(s: int) {
      fatbase <= s < fatbase + fsize
    }

    predicate InFat2(s: int) {
      nFats == 2 && fatbase + fsize <= s < fatbase + 2 * fsize
    }
  }

  // ------------------------------------------------------------ bytes and entries

  predicate IsImage(g: Geometry, img: seq<Sector>) {
    g.Ok() && |img| == g.nSectors
  }

  /** Byte b of the first FAT. */
  function FatByte(g: Geometry, img: seq<Sector>, b: nat): Byte
    requires IsImage(g, img) && b < SS * g.fsize
  {
    img[g.fatbase + b / SS][b % SS]
  }

  function SetFatByte(g: Geometry, img: seq<Sector>, b: nat, v: Byte): (r: seq<Sector>)
    requires IsImage(g, img) && b < SS * g.fsize
    ensures IsImage(g, r)
  {
    var s := g.fatbase + b / SS;
    img[s := img[s][b % SS := v]]
  }

  lemma SetFatByteReads(g: Geometry, img: seq<Sector>, b: nat, v: Byte, b': nat)
    requires IsImage(g, img) && b < SS * g.fsize && b' < SS * g.fsize
    ensures FatByte(g, SetFatByte(g, img, b, v), b') == if b' == b then v else FatByte(g, img, b')
  {
    assert b == SS * (b / SS) + b % SS && b' == SS * (b' / SS) + b' % SS;
  }

  // ------------------------------------------------------- words in a sector

  function LdWord(w: Sector, o: nat): nat
    requires o + 2 <= SS
  {
    w[o] + 0x100 * (w[o + 1] as int)
  }

  function LdDword(w: Sector, o: nat): nat
    requires o + 4 <= SS
  {
    w[o] + 0x100 * (w[o + 1] as int) + 0x1_0000 * (w[o + 2] as int) + 0x100_0000 * (w[o + 3] as int)
  }

  function StWord(w: Sector, o: nat, v: nat): Sector
    requires o + 2 <= SS
  {
    w[o := v % 256][o + 1 := v / 0x100 % 256]
  }

  function StDword(w: Sector, o: nat, v: nat): Sector
    requires o + 4 <= SS
  {
    w[o := v % 256][o + 1 := v / 0x100 % 256][o + 2 := v / 0x1_0000 % 256][o + 3 := v / 0x100_0000 % 256]
  }

  // ------------------------------------------------------------------ entries

  /** First byte of a 12-bit entry. */
  function Offset12(c: nat): nat {
    c + c / 2
  }

  /** Sector of the FAT with entry c (with its first byte, on FAT12). */
  function SectorOf(g: Geometry, c: nat): nat {
    match g.kind
    case FAT12 => g.fatbase + Offset12(c) / SS
    case FAT16 => g.fatbase + c / 256
    case FAT32 => g.fatbase + c / 128
  }

  /** Its offset in that sector, on FAT16 and FAT32. */
  function CellOffset(g: Geometry, c: nat): (o: nat)
    ensures o + (if g.kind == FAT16 then 2 else 4) <= SS
  {
    if g.kind == FAT16 then c * 2 % SS else c * 4 % SS
  }

  /** Every entry lies inside the fsize sectors of the FAT. */
  lemma EntryInFat(g: Geometry, c: nat)
    requires g.Ok() && c < g.nFatent
    ensures g.InFat1(SectorOf(g, c)) && SectorOf(g, c) < g.nSectors
    ensures g.kind == FAT12 ==> Offset12(c) + 1 < SS * g.fsize
  {
    FatFits(g);
    EntryInBytes(g.kind, c, g.nFatent);
    hide Geometry.Ok, EntryBytes, Offset12;
    match g.kind
    case FAT12 => InSectors(Offset12(c), 512, g.fsize);
    case FAT16 => InSectors(c, 256, g.fsize);
    case FAT32 => InSectors(c, 128, g.fsize);
  }

  lemma EntryInBytes(kind: FatType, c: nat, n: nat)
    requires c < n
    ensures kind == FAT12 ==> Offset12(c) + 1 < EntryBytes(kind, n)
    ensures kind == FAT16 ==> c * 2 + 1 < EntryBytes(kind, n)
    ensures kind == FAT32 ==> c * 4 + 3 < EntryBytes(kind, n)
  {
  }

  lemma FatFits(g: Geometry)
    requires g.Ok()
    ensures g.FatBytes() <= SS * g.fsize && g.fatbase + g.fsize <= g.nSectors
  {
    assert g.fsize <= g.nFats * g.fsize;
  }

  lemma InSectors(k: nat, d: nat, n: nat)
    requires d > 0 && k < d * n
    ensures k / d < n
  {
    var q := k / d;
    assert d * (q - n + 1) == d * q - d * n + d;
    if q >= n {
      MulAtLeast(d, q - n + 1);
    }
  }

  function Decode12(c: nat, x: Byte, y: Byte): nat {
    var wc := x + 0x100 * (y as int);
    if c % 2 == 1 then wc / 16 else wc % 0x1000
  }

  /** What get_fat extracts for entry c. */
  function Entry(g: Geometry, img: seq<Sector>, c: nat): nat
    requires IsImage(g, img) && c < g.nFatent
  {
    EntryInFat(g, c);
    hide Geometry.Ok;
    var s := SectorOf(g, c);
    match g.kind
    case FAT12 => Decode12(c, FatByte(g, img, Offset12(c)), FatByte(g, img, Offset12(c) + 1))
    case FAT16 => LdWord(img[s], CellOffset(g, c))
    case FAT32 => LdDword(img[s], CellOffset(g, c)) % 0x1000_0000
  }

  /** The first byte of a 12-bit entry after the store, from the byte before. */
  function First12(c: nat, val: nat, p: Byte): Byte {
    if c % 2 == 1 then p % 16 + val % 16 * 16 else val % 256
  }

  function Second12(c: nat, val: nat, p: Byte): Byte {
    if c % 2 == 1 then val / 16 % 256 else p - p % 16 + val / 0x100 % 16
  }

  /** put_fat on FAT12 stops half way when the second transfer fails. */
  function PutHalf12(g: Geometry, img: seq<Sector>, c: nat, val: nat): (r: seq<Sector>)
    requires IsImage(g, img) && c < g.nFatent && g.kind == FAT12
    ensures IsImage(g, r)
  {
    EntryInFat(g, c);
    SetFatByte(g, img, Offset12(c), First12(c, val, FatByte(g, img, Offset12(c))))
  }

  /** The low 28 bits of a 32-bit cell replaced. */
  function Merge32(cell: nat, val: nat): nat {
    val % 0x1000_0000 + cell / 0x1000_0000 * 0x1000_0000
  }

  /** The image after a completed put_fat. */
  function Put(g: Geometry, img: seq<Sector>, c: nat, val: nat): (r: seq<Sector>)
    requires IsImage(g, img) && c < g.nFatent
    ensures IsImage(g, r)
  {
    EntryInFat(g, c);
    hide StWord, StDword, First12, Second12, PutHalf12, Merge32;
    var s := SectorOf(g, c);
    match g.kind
    case FAT12 =>
      var half, b := PutHalf12(g, img, c, val), Offset12(c) + 1;
      SetFatByte(g, half, b, Second12(c, val, FatByte(g, half, b)))
    case FAT16 => img[s := StWord(img[s], CellOffset(g, c), val)]
    case FAT32 => img[s := StDword(img[s], CellOffset(g, c), Merge32(LdDword(img[s], CellOffset(g, c)), val))]
  }

  lemma PutFrame(g: Geometry, img: seq<Sector>, c: nat, val: nat)
    requires IsImage(g, img) && c < g.nFatent
    ensures forall s :: 0 <= s < |img| && !g.InFat1(s) ==> Put(g, img, c, val)[s] == img[s]
  {
    EntryInFat(g, c);
  }

  /** A put then a get returns the value masked to the entry width; every other entry, though it may
      share a byte or a sector with this one, reads as before. */
  lemma GetAfterPut(g: Geometry, img: seq<Sector>, c: nat, val: nat, c': nat)
    requires IsImage(g, img) && c < g.nFatent && c' < g.nFatent
    ensures Entry(g, Put(g, img, c, val), c') == if c' == c then val % g.Modulus() else Entry(g, img, c')
  {
    match g.kind
    case FAT12 => Get12(g, img, c, val, c');
    case FAT16 => Get16(g, img, c, val, c');
    case FAT32 => Get32(g, img, c, val, c');
  }

  /** The bytes of the FAT after a 12-bit put. */
  lemma PutReads12(g: Geometry, img: seq<Sector>, c: nat, val: nat, b: nat)
    requires IsImage(g, img) && c < g.nFatent && g.kind == FAT12 && b < SS * g.fsize
    ensures FatByte(g, Put(g, img, c, val), b)
         == if b == Offset12(c) then First12(c, val, FatByte(g, img, b))
            else if b == Offset12(c) + 1 then Second12(c, val, FatByte(g, img, b))
            else FatByte(g, img, b)
  {
    EntryInFat(g, c);
    hide FatByte, SetFatByte, Geometry.Ok, First12, Second12, Offset12;
    var o := Offset12(c);
    var half := PutHalf12(g, img, c, val);
    var v, w := First12(c, val, FatByte(g, img, o)), Second12(c, val, FatByte(g, half, o + 1));
    SetFatByteReads(g, img, o, v, o + 1);
    SetFatByteReads(g, img, o, v, b);
    SetFatByteReads(g, half, o + 1, w, b);
  }

  lemma Get12(g: Geometry, img: seq<Sector>, c: nat, val: nat, c': nat)
    requires IsImage(g, img) && c < g.nFatent && c' < g.nFatent && g.kind == FAT12
    ensures Entry(g, Put(g, img, c, val), c') == if c' == c then val % g.Modulus() else Entry(g, img, c')
  {
    EntryInFat(g, c');
    Overlap12(c, c');
    hide FatByte, Put, Decode12, Geometry.Ok, First12, Second12, Offset12;
    PutReads12(g, img, c, val, Offset12(c'));
    PutReads12(g, img, c, val, Offset12(c') + 1);
    Put12(c, val, c', FatByte(g, img, Offset12(c')), FatByte(g, img, Offset12(c') + 1));
  }

  /** Neighbouring 12-bit entries share a byte, others none. */
  lemma Overlap12(c: nat, c': nat)
    ensures Offset12(c') == Offset12(c) <==> c' == c
    ensures Offset12(c') + 1 == Offset12(c) ==> c % 2 == 1 && c' % 2 == 0
    ensures Offset12(c') == Offset12(c) + 1 ==> c % 2 == 0 && c' % 2 == 1
  {
  }

  lemma Get16(g: Geometry, img: seq<Sector>, c: nat, val: nat, c': nat)
    requires IsImage(g, img) && c < g.nFatent && c' < g.nFatent && g.kind == FAT16
    ensures Entry(g, Put(g, img, c, val), c') == if c' == c then val % g.Modulus() else Entry(g, img, c')
  {
    EntryInFat(g, c);
    EntryInFat(g, c');
    hide Geometry.Ok;
    TwoDigits(val, 0x100, 0x100);
    if c' / 256 == c / 256 && c' != c {
      CellsApart(c, c', 2, 256);
    }
  }

  lemma Get32(g: Geometry, img: seq<Sector>, c: nat, val: nat, c': nat)
    requires IsImage(g, img) && c < g.nFatent && c' < g.nFatent && g.kind == FAT32
    ensures Entry(g, Put(g, img, c, val), c') == if c' == c then val % g.Modulus() else Entry(g, img, c')
  {
    EntryInFat(g, c);
    EntryInFat(g, c');
    var s, o := SectorOf(g, c), CellOffset(g, c);
    hide Geometry.Ok;
    StLdDword(img[s], o, Merge32(LdDword(img[s], o), val));
    MergeKeeps(LdDword(img[s], o), val);
    if c' / 128 == c / 128 && c' != c {
      CellsApart(c, c', 4, 128);
    }
  }

  /** The four reserved bits at the top of every FAT32 cell survive every put. */
  lemma ReservedBitsKept(g: Geometry, img: seq<Sector>, c: nat, val: nat, c': nat)
    requires IsImage(g, img) && g.kind == FAT32 && c < g.nFatent && c' < g.nFatent
    ensures g.InFat1(SectorOf(g, c')) && SectorOf(g, c') < g.nSectors
    ensures LdDword(Put(g, img, c, val)[SectorOf(g, c')], CellOffset(g, c')) / 0x1000_0000
         == LdDword(img[SectorOf(g, c')], CellOffset(g, c')) / 0x1000_0000
  {
    EntryInFat(g, c);
    EntryInFat(g, c');
    var s, o := SectorOf(g, c), CellOffset(g, c);
    hide Geometry.Ok;
    StLdDword(img[s], o, Merge32(LdDword(img[s], o), val));
    MergeKeeps(LdDword(img[s], o), val);
    if c' / 128 == c / 128 && c' != c {
      CellsApart(c, c', 4, 128);
    }
  }

  lemma CellsApart(c: nat, c': nat, w: nat, n: nat)
    requires (w == 2 && n == 256) || (w == 4 && n == 128)
    requires c != c' && c / n == c' / n
    ensures c * w % 512 + w <= c' * w % 512 || c' * w % 512 + w <= c * w % 512
  {
    CellPlace(c, w, n);
    CellPlace(c', w, n);
  }

  lemma CellPlace(c: nat, w: nat, n: nat)
    requires (w == 2 && n == 256) || (w == 4 && n == 128)
    ensures c * w % 512 == c % n * w
  {
    var q, r := c / n, c % n;
    assert c * w == 512 * q + r * w by { assert c == n * q + r; }
    QuotientIs(c * w, 512, q, r * w);
  }

  /** The low digit and the next one make up the remainder by both. */
  lemma TwoDigits(val: nat, a: nat, b: nat)
    requires a > 0 && b > 0
    ensures a * b > 0 && val % (a * b) == val % a + a * (val / a % b)
  {
    var k, l := val / a, val % a;
    var j, m := k / b, k % b;
    assert a * k == a * b * j + a * m by { assert k == b * j + m; assert a * (b * j) == a * b * j; }
    assert 0 <= a * m + l < a * b by { MulAtLeast(a, b - m); assert a * (b - m) == a * b - a * m; }
    QuotientIs(val, a * b, j, a * m + l);
  }

  lemma StLdDword(w: Sector, o: nat, v: nat)
    requires o + 4 <= SS && v < 0x1_0000_0000
    ensures LdDword(StDword(w, o, v), o) == v
  {
    TwoDigits(v, 0x100, 0x100);
    TwoDigits(v, 0x1_0000, 0x100);
    TwoDigits(v, 0x100_0000, 0x100);
  }

  lemma MergeKeeps(cell: nat, val: nat)
    requires cell < 0x1_0000_0000
    ensures Merge32(cell, val) < 0x1_0000_0000
    ensures Merge32(cell, val) % 0x1000_0000 == val % 0x1000_0000
        && Merge32(cell, val) / 0x1000_0000 == cell / 0x1000_0000
  {
  }

  /** Twelve-bit cells: x and y are the old bytes of entry c'. */
  lemma Put12(c: nat, val: nat, c': nat, x: Byte, y: Byte)
    ensures c' == c ==> Decode12(c, First12(c, val, x), Second12(c, val, y)) == val % 0x1000
    ensures c' % 2 == 0 && c % 2 == 1 ==> Decode12(c', x, First12(c, val, y)) == Decode12(c', x, y)
    ensures c' % 2 == 1 && c % 2 == 0 ==> Decode12(c', Second12(c, val, x), y) == Decode12(c', x, y)
  {
    TwoDigits(val, 16, 256);
    TwoDigits(val, 256, 16);
    if c % 2 == 1 {
      OddCell(x % 16, val % 16, val / 16 % 256);
    } else {
      EvenCell(val % 256, y / 16, val / 0x100 % 16);
    }
    if c' % 2 == 0 {
      EvenCell(x, val % 16, y % 16);
      EvenCell(x, y / 16, y % 16);
    } else {
      OddCell(val / 0x100 % 16, x / 16, y);
      OddCell(x % 16, x / 16, y);
    }
  }

  lemma OddCell(low: int, high: int, y: Byte)
    requires 0 <= low < 16 && 0 <= high < 16
    ensures (low + high * 16 + 0x100 * (y as int)) / 16 == high + 16 * (y as int)
  {
  }

  lemma EvenCell(x: Byte, high: int, low: int)
    requires 0 <= low < 16 && 0 <= high < 16
    ensures (x + 0x100 * (high * 16 + low)) % 0x1000 == x + 0x100 * low
  {
  }

  /** Half a FAT12 put leaves every other entry as it was. */
  lemma GetAfterHalfPut(g: Geometry, img: seq<Sector>, c: nat, val: nat, c': nat)
    requires IsImage(g, img) && c < g.nFatent && c' < g.nFatent && g.kind == FAT12 && c' != c
    ensures Entry(g, PutHalf12(g, img, c, val), c') == Entry(g, img, c')
  {
    EntryInFat(g, c);
    EntryInFat(g, c');
    var o, o' := Offset12(c), Offset12(c');
    var v := First12(c, val, FatByte(g, img, o));
    Overlap12(c, c');
    hide FatByte, SetFatByte, Decode12, Geometry.Ok, First12, Second12, Offset12;
    SetFatByteReads(g, img, o, v, o');
    SetFatByteReads(g, img, o, v, o' + 1);
    Put12(c, val, c', FatByte(g, img, o'), FatByte(g, img, o' + 1));
  }
}
