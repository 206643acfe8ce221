/** The layout of the file allocation table as one number: the first FAT read as a little-endian number, its
    entries are the digits of that number to the base 2^12, 2^16 or 2^32. */
module FatNumber {
  import opened Radix
  import opened FatTable

  /** The sectors end to end. */
  ghost function Joined(secs: seq<Sector>): (b: seq<Byte>)
    ensures |b| == 512 * |secs|
  {
    if secs == [] then [] else secs[0] + Joined(secs[1..])
  }

  lemma {:induction false} JoinedFrom(secs: seq<Sector>, q: nat, r: nat)
    requires q < |secs| && r < 512
    ensures 512 * q + r < 512 * |secs| && Joined(secs)[512 * q + r] == secs[q][r]
  {
    if q > 0 {
      JoinedFrom(secs[1..], q - 1, r);
    }
  }

  lemma JoinedAt(secs: seq<Sector>, k: nat)
    requires k < 512 * |secs|
    ensures k / 512 < |secs| && Joined(secs)[k] == secs[k / 512][k % 512]
  {
    JoinedFrom(secs, k / 512, k % 512);
  }

  /** The bytes of the first FAT. */
  ghost function Bytes(g: Geometry, img: seq<Sector>): (b: seq<Byte>)
    requires IsImage(g, img)
    ensures |b| == 512 * g.fsize
  {
    FatFits(g);
    Joined(img[g.fatbase..g.fatbase + g.fsize])
  }

  /** The number the first FAT spells. */
  ghost function Spelled(g: Geometry, img: seq<Sector>): nat
    requires IsImage(g, img)
  {
    BytesValue(Bytes(g, img))
  }

  lemma BytesAre(g: Geometry, img: seq<Sector>, k: nat)
    requires IsImage(g, img) && k < 512 * g.fsize
    ensures Bytes(g, img)[k] == FatByte(g, img, k)
  {
    FatFits(g);
    JoinedAt(img[g.fatbase..g.fatbase + g.fsize], k);
  }

  /** Every entry, as get_fat extracts it, is a digit of that number; on FAT32 its low 28 bits. */
  lemma EntryIsDigit(g: Geometry, img: seq<Sector>, c: nat)
    requires IsImage(g, img) && c < g.nFatent
    ensures g.kind == FAT12 ==> Entry(g, img, c) == Spelled(g, img) / Pow2(12 * c) % 0x1000
    ensures g.kind == FAT16 ==> Entry(g, img, c) == Spelled(g, img) / Pow2(16 * c) % 0x1_0000
    ensures g.kind == FAT32 ==> Entry(g, img, c) == Spelled(g, img) / Pow2(32 * c) % 0x1_0000_0000 % 0x1000_0000
  {
    EntryInFat(g, c);
    FatFits(g);
    EntryInBytes(g.kind, c, g.nFatent);
    var b := Bytes(g, img);
    hide Geometry.Ok, Bytes, BytesValue, Pow2, EntryBytes, FatByte, LdWord, LdDword;
    match g.kind
    case FAT12 =>
      BytesAre(g, img, Offset12(c));
      BytesAre(g, img, Offset12(c) + 1);
      Digit12(b, c);
    case FAT16 =>
      Cell16(g, img, c);
      Digit16(b, c);
    case FAT32 =>
      Cell32(g, img, c);
      Digit32(b, c);
  }

  lemma Digit12(b: seq<Byte>, c: nat)
    requires Offset12(c) + 1 < |b|
    ensures BytesValue(b) / Pow2(12 * c) % 0x1000 == Decode12(c, b[Offset12(c)], b[Offset12(c) + 1])
  {
    var o := Offset12(c);
    DropBytes(b, o);
    TakeByte(b, o);
    TakeByte(b, o + 1);
    hide BytesValue, Pow2;
    var word, rest := b[o] + 0x100 * (b[o + 1] as int), BytesValue(b[o + 2..]);
    assert BytesValue(b) / Pow2(8 * o) == word + 0x1_0000 * rest;
    hide Decode12;
    if c % 2 == 1 {
      assert 12 * c == 8 * o + 4;
      Pow2Add(8 * o, 4);
      Pow2Of4();
      DivDiv(BytesValue(b), Pow2(8 * o), 16);
      OddDigit(word, rest);
    } else {
      assert 12 * c == 8 * o;
      EvenDigit(word, rest);
    }
    DecodesWord(c, b[o], b[o + 1]);
  }

  lemma DecodesWord(c: nat, x: Byte, y: Byte)
    ensures Decode12(c, x, y) == if c % 2 == 1 then (x + 0x100 * (y as int)) / 16 else (x + 0x100 * (y as int)) % 0x1000
  {
  }

  lemma Pow2Of4()
    ensures Pow2(4) == 16
  {
  }

  lemma OddDigit(word: nat, rest: nat)
    requires word < 0x1_0000
    ensures (word + 0x1_0000 * rest) / 16 % 0x1000 == word / 16
  {
  }

  lemma EvenDigit(word: nat, rest: nat)
    requires word < 0x1_0000
    ensures (word + 0x1_0000 * rest) % 0x1000 == word % 0x1000
  {
  }

  lemma Digit16(b: seq<Byte>, c: nat)
    requires 2 * c + 1 < |b|
    ensures BytesValue(b) / Pow2(16 * c) % 0x1_0000 == b[2 * c] + 0x100 * (b[2 * c + 1] as int)
  {
    DropBytes(b, 2 * c);
    TakeByte(b, 2 * c);
    TakeByte(b, 2 * c + 1);
    hide BytesValue, Pow2;
    assert 16 * c == 8 * (2 * c);
    QuotientIs(BytesValue(b[2 * c..]), 0x1_0000, BytesValue(b[2 * c + 2..]), b[2 * c] + 0x100 * (b[2 * c + 1] as int));
  }

  lemma Digit32(b: seq<Byte>, c: nat)
    requires 4 * c + 3 < |b|
    ensures BytesValue(b) / Pow2(32 * c) % 0x1_0000_0000 == Load4(b, 4 * c)
  {
    DropBytes(b, 4 * c);
    TakeByte(b, 4 * c);
    TakeByte(b, 4 * c + 1);
    TakeByte(b, 4 * c + 2);
    TakeByte(b, 4 * c + 3);
    hide BytesValue, Pow2;
    assert 32 * c == 8 * (4 * c);
    QuotientIs(BytesValue(b[4 * c..]), 0x1_0000_0000, BytesValue(b[4 * c + 4..]), Load4(b, 4 * c));
  }

  lemma CellIndex(c: nat, w: nat, n: nat, i: nat)
    requires ((w == 2 && n == 256) || (w == 4 && n == 128)) && i < w
    ensures (w * c + i) / 512 == c / n && (w * c + i) % 512 == c * w % 512 + i
  {
    CellPlace(c, w, n);
    if w == 2 {
      QuotientIs(2 * c + i, 512, c / 256, c % 256 * 2 + i);
    } else {
      QuotientIs(4 * c + i, 512, c / 128, c % 128 * 4 + i);
    }
  }

  /** Byte i of cell c, of w bytes, n to a sector. */
  lemma CellByte(g: Geometry, img: seq<Sector>, c: nat, w: nat, n: nat, i: nat)
    requires ((w == 2 && n == 256) || (w == 4 && n == 128)) && i < w
    requires IsImage(g, img) && w * c + i < 512 * g.fsize
    requires g.fatbase + c / n < |img| && c * w % 512 + w <= 512
    ensures img[g.fatbase + c / n][c * w % 512 + i] == Bytes(g, img)[w * c + i]
  {
    hide Geometry.Ok, Bytes;
    BytesAre(g, img, w * c + i);
    CellIndex(c, w, n, i);
  }

  lemma Cell16(g: Geometry, img: seq<Sector>, c: nat)
    requires IsImage(g, img) && c < g.nFatent && g.kind == FAT16
    ensures 2 * c + 1 < 512 * g.fsize
    ensures Entry(g, img, c) == Bytes(g, img)[2 * c] + 0x100 * (Bytes(g, img)[2 * c + 1] as int)
  {
    EntryInFat(g, c);
    FatFits(g);
    EntryInBytes(g.kind, c, g.nFatent);
    hide Geometry.Ok, Bytes, EntryBytes;
    CellByte(g, img, c, 2, 256, 0);
    CellByte(g, img, c, 2, 256, 1);
  }

  lemma Cell32(g: Geometry, img: seq<Sector>, c: nat)
    requires IsImage(g, img) && c < g.nFatent && g.kind == FAT32
    ensures 4 * c + 3 < 512 * g.fsize
    ensures g.InFat1(SectorOf(g, c)) && SectorOf(g, c) < g.nSectors
    ensures LdDword(img[SectorOf(g, c)], CellOffset(g, c)) == Load4(Bytes(g, img), 4 * c)
  {
    EntryInFat(g, c);
    FatFits(g);
    EntryInBytes(g.kind, c, g.nFatent);
    var s, o, b := SectorOf(g, c), CellOffset(g, c), Bytes(g, img);
    assert s == g.fatbase + c / 128 && o == c * 4 % 512;
    hide *;
    CellByte(g, img, c, 4, 128, 0);
    CellByte(g, img, c, 4, 128, 1);
    CellByte(g, img, c, 4, 128, 2);
    CellByte(g, img, c, 4, 128, 3);
    SameDword(img[s], o, b, 4 * c);
  }

  lemma SameDword(w: Sector, o: nat, b: seq<Byte>, k: nat)
    requires o + 4 <= 512 && k + 4 <= |b|
    requires w[o] == b[k] && w[o + 1] == b[k + 1] && w[o + 2] == b[k + 2] && w[o + 3] == b[k + 3]
    ensures LdDword(w, o) == Load4(b, k)
  {
  }

  /** What put_fat does to the number: the digit of c becomes the value masked to its width, below the four
      reserved bits on FAT32, and every other digit stays. */
  lemma PutSetsDigit(g: Geometry, img: seq<Sector>, c: nat, val: nat, c': nat)
    requires IsImage(g, img) && c < g.nFatent && c' < g.nFatent
    ensures var n, n' := Spelled(g, img), Spelled(g, Put(g, img, c, val));
      match g.kind
      case FAT12 => n' / Pow2(12 * c') % 0x1000 == if c' == c then val % 0x1000 else n / Pow2(12 * c') % 0x1000
      case FAT16 => n' / Pow2(16 * c') % 0x1_0000 == if c' == c then val % 0x1_0000 else n / Pow2(16 * c') % 0x1_0000
      case FAT32 =>
        var cell, cell' := n / Pow2(32 * c') % 0x1_0000_0000, n' / Pow2(32 * c') % 0x1_0000_0000;
        cell' == if c' == c then cell / 0x1000_0000 * 0x1000_0000 + val % 0x1000_0000 else cell
  {
    var img' := Put(g, img, c, val);
    GetAfterPut(g, img, c, val, c');
    EntryIsDigit(g, img, c');
    EntryIsDigit(g, img', c');
    hide Entry, Put, Geometry.Ok, Pow2, Spelled, Bytes, LdDword;
    if g.kind == FAT32 {
      ReservedBitsKept(g, img, c, val, c');
      Cell32(g, img, c');
      Cell32(g, img', c');
      Digit32(Bytes(g, img), c');
      Digit32(Bytes(g, img'), c');
      SpelledIs(g, img);
      SpelledIs(g, img');
    }
  }

  lemma SpelledIs(g: Geometry, img: seq<Sector>)
    requires IsImage(g, img)
    ensures Spelled(g, img) == BytesValue(Bytes(g, img))
  {
  }
}
