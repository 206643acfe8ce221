/** The FATFS object of Externals/FatFs/ff.c: a disk, the one-sector write-back window and the
    packed table seen through it. */
module FatVolume {
  import opened Radix
  import opened FatTable

  datatype FResult = FR_OK | FR_DISK_ERR | FR_INT_ERR | FR_DENIED

  const NO_SECTOR: nat := 0xFFFF_FFFF      // (LBA_t)0 - 1
  const DISK_ERROR: nat := 0xFFFF_FFFF     // get_fat and create_chain on a failed transfer

  /** 32-bit subtraction. */
  function Sub32(a: int, b: int): nat {
    (a - b) % 0x1_0000_0000
  }

  /** The regions of the volume lie apart and inside the disk. */
  lemma Layout(g: Geometry)
    requires g.Ok()
    ensures g.fatbase > 0 && (g.nFats == 1 || g.nFats == 2) && g.fsize > 0
    ensures g.fatbase + g.nFats * g.fsize <= g.database <= g.nSectors < NO_SECTOR
    ensures g.nFats == 2 ==> g.fatbase + g.fsize + g.fsize <= g.database
  {
  }

  /** The same logical sectors, the second copy of the FAT aside. */
  ghost predicate Same(g: Geometry, a: seq<Sector>, b: seq<Sector>) {
    |a| == |b| && forall s :: 0 <= s < |a| && !g.InFat2(s) ==> a[s] == b[s]
  }

  /** The same sectors outside both copies of the FAT. */
  ghost predicate SameRest(g: Geometry, a: seq<Sector>, b: seq<Sector>) {
    |a| == |b| && forall s :: 0 <= s < |a| && !g.InFat1(s) && !g.InFat2(s) ==> a[s] == b[s]
  }

  lemma SameIsSameRest(g: Geometry, a: seq<Sector>, b: seq<Sector>)
    requires Same(g, a, b)
    ensures SameRest(g, a, b)
  {
  }

  /** The logical disk and the sector in the window. */
  datatype Snap = Snap(img: seq<Sector>, winsect: nat)

  /** Only the FAT changed, and the window went nowhere but to a FAT sector. */
  ghost predicate Quiet(g: Geometry, a: Snap, b: Snap) {
    SameRest(g, a.img, b.img) && (b.winsect == a.winsect || b.winsect == NO_SECTOR || g.InFat1(b.winsect))
  }

  lemma QuietTrans(g: Geometry, a: Snap, b: Snap, c: Snap)
    requires Quiet(g, a, b) && Quiet(g, b, c)
    ensures Quiet(g, a, c)
  {
  }

  lemma QuietRefl(g: Geometry, a: Snap)
    ensures Quiet(g, a, a)
  {
  }

  lemma PutIsSameRest(g: Geometry, a: seq<Sector>, b: seq<Sector>, c: nat, val: nat)
    requires IsImage(g, a) && c < g.nFatent
    requires Same(g, Put(g, a, c, val), b) || (g.kind == FAT12 && Same(g, PutHalf12(g, a, c, val), b))
    ensures SameRest(g, a, b)
  {
    PutFrame(g, a, c, val);
    hide Put, PutHalf12;
  }

  lemma SameByte(g: Geometry, a: seq<Sector>, b: seq<Sector>, k: nat)
    requires IsImage(g, a) && Same(g, a, b) && k < SS * g.fsize
    ensures IsImage(g, b) && FatByte(g, a, k) == FatByte(g, b, k)
  {
  }

  lemma SameEntry(g: Geometry, a: seq<Sector>, b: seq<Sector>, c: nat)
    requires IsImage(g, a) && Same(g, a, b) && c < g.nFatent
    ensures IsImage(g, b) && Entry(g, a, c) == Entry(g, b, c)
  {
    EntryInFat(g, c);
    if g.kind == FAT12 {
      SameByte(g, a, b, Offset12(c));
      SameByte(g, a, b, Offset12(c) + 1);
    }
  }

  lemma SameSet(g: Geometry, a: seq<Sector>, b: seq<Sector>, k: nat, v: Byte)
    requires IsImage(g, a) && Same(g, a, b) && k < SS * g.fsize
    ensures IsImage(g, b) && Same(g, SetFatByte(g, a, k, v), SetFatByte(g, b, k, v))
  {
  }

  lemma SameTrans(g: Geometry, a: seq<Sector>, b: seq<Sector>, c: seq<Sector>)
    requires Same(g, a, b) && Same(g, b, c)
    ensures Same(g, a, c)
  {
  }

  /** All entries, decoded. */
  ghost function Decoded(g: Geometry, img: seq<Sector>): (t: seq<nat>)
    requires IsImage(g, img)
    ensures |t| == g.nFatent
  {
    seq(g.nFatent, c requires 0 <= c < g.nFatent => Entry(g, img, c))
  }

  lemma DecodedSame(g: Geometry, a: seq<Sector>, b: seq<Sector>)
    requires IsImage(g, a) && Same(g, a, b)
    ensures IsImage(g, b) && Decoded(g, a) == Decoded(g, b)
  {
    hide Entry;
    assert IsImage(g, b);
    hide Same;
    forall c | 0 <= c < g.nFatent
      ensures Entry(g, a, c) == Entry(g, b, c)
    {
      SameEntry(g, a, b, c);
    }
  }

  /** The table only looks at the first FAT. */
  lemma DecodedSameFat(g: Geometry, a: seq<Sector>, b: seq<Sector>)
    requires IsImage(g, a) && |b| == |a| && forall s :: 0 <= s < |a| && g.InFat1(s) ==> b[s] == a[s]
    ensures IsImage(g, b) && Decoded(g, a) == Decoded(g, b)
  {
    assert IsImage(g, b);
    hide Entry;
    forall c | 0 <= c < g.nFatent
      ensures Entry(g, a, c) == Entry(g, b, c)
    {
      EntrySameFat(g, a, b, c);
    }
  }

  lemma EntrySameFat(g: Geometry, a: seq<Sector>, b: seq<Sector>, c: nat)
    requires IsImage(g, a) && IsImage(g, b) && c < g.nFatent
    requires forall s :: 0 <= s < |a| && g.InFat1(s) ==> b[s] == a[s]
    ensures Entry(g, a, c) == Entry(g, b, c)
  {
    EntryInFat(g, c);
    Layout(g);
    hide Geometry.Ok;
    if g.kind == FAT12 {
      InSectors(Offset12(c) + 1, SS, g.fsize);
      InSectors(Offset12(c), SS, g.fsize);
    }
  }

  /** On decoded tables a put is an assignment. */
  lemma DecodedPut(g: Geometry, img: seq<Sector>, c: nat, val: nat)
    requires IsImage(g, img) && c < g.nFatent
    ensures Decoded(g, Put(g, img, c, val)) == Decoded(g, img)[c := val % g.Modulus()]
  {
    hide Entry, Put;
    forall c' | 0 <= c' < g.nFatent
      ensures Entry(g, Put(g, img, c, val), c') == if c' == c then val % g.Modulus() else Entry(g, img, c')
    {
      GetAfterPut(g, img, c, val, c');
    }
  }

  /** The second FAT, if there is one, equals the first. */
  ghost predicate Twins(g: Geometry, disk: seq<Sector>)
    requires IsImage(g, disk)
  {
    forall s :: g.InFat1(s) && g.nFats == 2 && s + g.fsize < |disk| ==> disk[s + g.fsize] == disk[s]
  }

  class FatFs {
    const g: Geometry
    var disk: seq<Sector>
    var win: Sector
    var winsect: nat
    var wflag: bool
    var lastClst: nat
    var freeClst: nat
    var fsiFlag: bool
    ghost var writesOk: bool        // the FATs were equal on mounting and no write has failed since
    ghost var faults: nat           // how many transfers have failed
    ghost var log: seq<seq<nat>>    // the table after each completed put_fat, oldest first

    /** A mounted volume, nothing loaded. Mounting does not compare the two copies of the FAT: when they
        differ they count as having failed already. */
    constructor (g: Geometry, disk: seq<Sector>, freeClst: nat, lastClst: nat)
      requires IsImage(g, disk)
      ensures Valid() && this.g == g && Img() == disk && this.freeClst == freeClst && this.lastClst == lastClst
      ensures log == [] && (writesOk <==> Twins(g, disk))
    {
      this.g, this.disk, win, winsect, wflag := g, disk, seq(512, i => 0), NO_SECTOR, false;
      this.lastClst, this.freeClst, fsiFlag := lastClst, freeClst, false;
      writesOk, faults, log := Twins(g, disk), 0, [];
    }

    /** The logical disk: what the sectors will hold once the window is written back. */
    ghost function Img(): seq<Sector>
      reads `disk, `win, `winsect
    {
      if winsect < |disk| then disk[winsect := win] else disk
    }

    ghost function Now(): Snap
      reads `disk, `win, `winsect
    {
      Snap(Img(), winsect)
    }

    ghost predicate Valid()
      reads `disk, `win, `winsect, `wflag, `writesOk
    {
      && IsImage(g, disk)
      && (winsect == NO_SECTOR || winsect < g.nSectors) && !g.InFat2(winsect)
      && (wflag ==> winsect != NO_SECTOR)
      && (!wflag && winsect != NO_SECTOR ==> disk[winsect] == win)
      && Mirrored()
    }

    /** Every sector of the first FAT not waiting in the window has a twin in the second. */
    ghost predicate Mirrored()
      requires IsImage(g, disk)
      reads `disk, `winsect, `wflag, `writesOk
    {
      writesOk && g.nFats == 2 ==> forall s :: g.InFat1(s) && !(wflag && s == winsect) ==> disk[s + g.fsize] == disk[s]
    }

    /** The entries as get_fat would read them. */
    ghost function Table(): (t: seq<nat>)
      reads `disk, `win, `winsect
      ensures IsImage(g, disk) ==> |t| == g.nFatent
    {
      if IsImage(g, disk) then Decoded(g, Img()) else []
    }

    /** Writes one sector; a failure may leave anything in it. */
    method DiskWrite(s: nat, data: Sector) returns (ok: bool)
      requires IsImage(g, disk) && s < g.nSectors
      modifies `disk, `writesOk, `faults
      ensures |disk| == |old(disk)| && forall t :: 0 <= t < |disk| && t != s ==> disk[t] == old(disk)[t]
      ensures ok ==> disk[s] == data && writesOk == old(writesOk)
      ensures !ok ==> !writesOk
      ensures faults == if ok then old(faults) else old(faults) + 1
    {
      ok := *;
      if ok {
        disk := disk[s := data];
      } else {
        var garbage: Sector := *;
        disk := disk[s := garbage];
        writesOk, faults := false, faults + 1;
      }
    }

    /** Reads one sector, if the transfer succeeds. */
    method DiskRead(s: nat) returns (ok: bool, data: Sector)
      requires IsImage(g, disk) && s < g.nSectors
      modifies `faults
      ensures ok ==> data == disk[s]
      ensures faults == if ok then old(faults) else old(faults) + 1
    {
      ok := *;
      if ok {
        data := disk[s];
      } else {
        data := *;
        faults := faults + 1;
      }
    }

    /** Writes a sector of the data area that is not in the window. */
    method WriteData(s: nat, data: Sector) returns (ok: bool)
      requires Valid() && s < g.nSectors && !g.InFat1(s) && !g.InFat2(s) && s != winsect
      modifies `disk, `writesOk, `faults
      ensures Valid() && Table() == old(Table())
      ensures ok ==> s < |old(Img())| && Img() == old(Img())[s := data]
      ensures faults == if ok then old(faults) else old(faults) + 1
    {
      Layout(g);
      hide Geometry.Ok;
      ghost var img := Img();
      ok := DiskWrite(s, data);
      DecodedSameFat(g, img, Img());
    }

    /** Reads a sector of the data area that is not in the window. */
    method ReadData(s: nat) returns (ok: bool, data: Sector)
      requires Valid() && s < g.nSectors && s != winsect
      modifies `faults
      ensures ok ==> s < |Img()| && data == Img()[s]
      ensures faults == if ok then old(faults) else old(faults) + 1
    {
      ok, data := DiskRead(s);
    }

    /** sync_window: the logical disk does not change, and a flushed FAT sector is mirrored. */
    method SyncWindow() returns (res: FResult)
      requires Valid()
      modifies `disk, `writesOk, `faults, `wflag
      ensures Valid() && Same(g, old(Img()), Img())
      ensures res == FR_OK ==> !wflag
      ensures res == FR_OK || res == FR_DISK_ERR
      ensures res == FR_OK && writesOk ==> Twins(g, disk)
      ensures faults >= old(faults) && (res != FR_OK ==> faults > old(faults))
    {
      hide Geometry.Ok;
      Layout(g);
      res := FR_OK;
      if wflag {
        var ok := DiskWrite(winsect, win);
        if ok {
          wflag := false;
          MirrorWindow();
        } else {
          res := FR_DISK_ERR;
        }
      }
    }

    /** Reflects the sector just flushed in the second FAT, if it belongs to the first. */
    method MirrorWindow()
      requires IsImage(g, disk) && winsect < g.nSectors && !g.InFat2(winsect) && !wflag && disk[winsect] == win
      requires writesOk && g.nFats == 2 ==> forall s :: g.InFat1(s) && s != winsect ==> disk[s + g.fsize] == disk[s]
      modifies `disk, `writesOk, `faults
      ensures Valid() && Same(g, old(Img()), Img())
      ensures faults >= old(faults)
    {
      hide Geometry.Ok;
      Layout(g);
      if Sub32(winsect, g.fatbase) < g.fsize {
        if g.nFats == 2 {
          var ok := DiskWrite(winsect + g.fsize, win);
        }
      }
    }

    /** move_window: brings a sector into the window without changing the logical disk. */
    method MoveWindow(sect: nat) returns (res: FResult)
      requires Valid() && sect < g.nSectors && !g.InFat2(sect)
      modifies `disk, `writesOk, `faults, `wflag, `win, `winsect
      ensures Valid() && Same(g, old(Img()), Img())
      ensures res == FR_OK ==> winsect == sect
      ensures res == FR_OK || res == FR_DISK_ERR
      ensures winsect == old(winsect) || winsect == NO_SECTOR || winsect == sect
      ensures faults >= old(faults) && (res != FR_OK ==> faults > old(faults))
    {
      res := FR_OK;
      if sect != winsect {
        res := SyncWindow();
        if res == FR_OK {
          res := FillWindow(sect);
        }
      }
    }

    /** Loads a sector into the clean window. */
    method FillWindow(sect: nat) returns (res: FResult)
      requires Valid() && !wflag && sect < g.nSectors && !g.InFat2(sect)
      modifies `win, `winsect, `faults
      ensures Valid() && Same(g, old(Img()), Img())
      ensures if res == FR_OK then winsect == sect else res == FR_DISK_ERR && winsect == NO_SECTOR
      ensures faults >= old(faults) && (res != FR_OK ==> faults > old(faults))
    {
      Layout(g);
      hide Geometry.Ok;
      res := FR_OK;
      var ok;
      ok, win := DiskRead(sect);
      winsect := sect;
      if !ok {
        winsect := NO_SECTOR;
        res := FR_DISK_ERR;
      }
    }

    /** The sector in the window, as the logical disk shows it. */
    lemma InWindow()
      requires Valid() && winsect != NO_SECTOR
      ensures IsImage(g, Img()) && winsect < |Img()| && Img()[winsect] == win
    {
      hide Geometry.Ok;
      Layout(g);
    }

    lemma ValidImage()
      requires Valid()
      ensures g.Ok() && IsImage(g, disk) && IsImage(g, Img())
    {
    }

    /** Moves the window to a sector of the first FAT. */
    method LoadFat(s: nat) returns (res: FResult)
      requires Valid() && g.InFat1(s)
      modifies `disk, `writesOk, `faults, `wflag, `win, `winsect
      ensures Valid() && Same(g, old(Img()), Img())
      ensures res == FR_OK ==> winsect == s && s < |Img()| && win == old(Img())[s] == Img()[s]
      ensures res == FR_OK || res == FR_DISK_ERR
      ensures winsect == old(winsect) || winsect == NO_SECTOR || g.InFat1(winsect)
      ensures faults >= old(faults) && (res != FR_OK ==> faults > old(faults))
    {
      hide Geometry.Ok;
      Layout(g);
      res := MoveWindow(s);
    }

    /** get_fat: entry clst; 1 for a number out of range, 0xFFFFFFFF when the disk fails. */
    method GetFat(clst: nat) returns (val: nat)
      requires Valid()
      modifies `disk, `writesOk, `faults, `wflag, `win, `winsect
      ensures Valid() && Same(g, old(Img()), Img())
      ensures (clst < 2 || clst >= g.nFatent) ==> val == 1
      ensures 2 <= clst < g.nFatent ==> val == DISK_ERROR || val == old(Table())[clst]
      ensures Table() == old(Table()) && Quiet(g, old(Now()), Now())
      ensures faults >= old(faults) && (val == DISK_ERROR ==> faults > old(faults))
    {
      ghost var img := Img();
      LookOnly(img);
      if clst < 2 || clst >= g.nFatent {
        val := 1;
      } else {
        ValidImage();
        hide Geometry.Ok, Same, Valid, Img, Entry;
        if g.kind == FAT12 {
          val := GetFat12(clst);
        } else {
          val := GetCell(clst);
        }
        LookOnly(img);
      }
    }

    /** Where the logical disk is the same, so is the table. */
    lemma LookOnly(img: seq<Sector>)
      requires Valid() && IsImage(g, img)
      ensures Same(g, img, Img()) ==> Table() == Decoded(g, img) && SameRest(g, img, Img())
    {
      if Same(g, img, Img()) {
        DecodedSame(g, img, Img());
        SameIsSameRest(g, img, Img());
      }
    }

    /** FAT16 and FAT32: one load. */
    method GetCell(clst: nat) returns (val: nat)
      requires Valid() && g.kind != FAT12 && clst < g.nFatent
      modifies `disk, `writesOk, `faults, `wflag, `win, `winsect
      ensures Valid() && Same(g, old(Img()), Img())
      ensures val == DISK_ERROR || val == Entry(g, old(Img()), clst)
      ensures winsect == old(winsect) || winsect == NO_SECTOR || g.InFat1(winsect)
      ensures faults >= old(faults) && (val == DISK_ERROR ==> faults > old(faults))
    {
      ValidImage();
      EntryInFat(g, clst);
      hide Geometry.Ok, Same, Valid, Img, LdWord, LdDword, SectorOf, CellOffset;
      val := DISK_ERROR;
      if g.kind == FAT16 {
        var res := LoadFat(SectorOf(g, clst));
        if res == FR_OK {
          val := LdWord(win, CellOffset(g, clst));
        }
      } else {
        var res := LoadFat(SectorOf(g, clst));
        if res == FR_OK {
          val := LdDword(win, CellOffset(g, clst)) % 0x1000_0000;
        }
      }
    }

    method GetFat12(clst: nat) returns (val: nat)
      requires Valid() && g.kind == FAT12 && clst < g.nFatent
      modifies `disk, `writesOk, `faults, `wflag, `win, `winsect
      ensures Valid() && Same(g, old(Img()), Img())
      ensures val == DISK_ERROR || val == Entry(g, old(Img()), clst)
      ensures winsect == old(winsect) || winsect == NO_SECTOR || g.InFat1(winsect)
      ensures faults >= old(faults) && (val == DISK_ERROR ==> faults > old(faults))
    {
      ValidImage();
      EntryInFat(g, clst);
      hide Geometry.Ok, Same, FatByte, Valid, Img, Decode12, Offset12;
      var ok, lo, hi := GetFatBytes(Offset12(clst));
      val := if ok then Decode12(clst, lo, hi) else DISK_ERROR;
    }

    /** Two neighbouring bytes of the FAT take two loads: they may lie in two sectors. */
    method GetFatBytes(b: nat) returns (ok: bool, lo: Byte, hi: Byte)
      requires Valid() && b + 1 < SS * g.fsize
      modifies `disk, `writesOk, `faults, `wflag, `win, `winsect
      ensures Valid() && Same(g, old(Img()), Img())
      ensures ok ==> lo == FatByte(g, old(Img()), b) && hi == FatByte(g, old(Img()), b + 1)
      ensures winsect == old(winsect) || winsect == NO_SECTOR || g.InFat1(winsect)
      ensures faults >= old(faults) && (!ok ==> faults > old(faults))
    {
      ValidImage();
      hide Geometry.Ok, Geometry.InFat1, Geometry.InFat2, IsImage, Same, FatByte, Valid, Img;
      ghost var img := Img();
      hi := 0;
      ok, lo := GetFatByte(b);
      if ok {
        ok, hi := GetNextByte(b + 1, img);
      }
    }

    /** The second of them, after a load that changed nothing. */
    method GetNextByte(b: nat, ghost img: seq<Sector>) returns (ok: bool, v: Byte)
      requires Valid() && IsImage(g, img) && Same(g, img, Img()) && b < SS * g.fsize
      modifies `disk, `writesOk, `faults, `wflag, `win, `winsect
      ensures Valid() && Same(g, img, Img())
      ensures ok ==> v == FatByte(g, img, b)
      ensures winsect == old(winsect) || winsect == NO_SECTOR || g.InFat1(winsect)
      ensures faults >= old(faults) && (!ok ==> faults > old(faults))
    {
      hide Geometry.Ok, Geometry.InFat1, Geometry.InFat2, IsImage, Same, FatByte, Valid, Img;
      ghost var img' := Img();
      ok, v := GetFatByte(b);
      SameTrans(g, img, img', Img());
      SameByte(g, img, img', b);
    }

    lemma FatByteSector(b: nat)
      requires g.Ok() && b < SS * g.fsize
      ensures g.InFat1(g.fatbase + b / SS)
    {
    }

    /** Moves the window to byte b of the FAT and reads it. */
    method GetFatByte(b: nat) returns (ok: bool, v: Byte)
      requires Valid() && b < SS * g.fsize
      modifies `disk, `writesOk, `faults, `wflag, `win, `winsect
      ensures Valid() && Same(g, old(Img()), Img())
      ensures ok ==> v == FatByte(g, old(Img()), b) && winsect == g.fatbase + b / SS && v == win[b % SS]
      ensures winsect == old(winsect) || winsect == NO_SECTOR || g.InFat1(winsect)
      ensures faults >= old(faults) && (!ok ==> faults > old(faults))
    {
      ValidImage();
      FatByteSector(b);
      hide Geometry.Ok, Same, Valid, Img;
      var res := LoadFat(g.fatbase + b / SS);
      ok := res == FR_OK;
      v := win[b % SS];
    }

    /** Changes the sector in the window. */
    method StoreWindow(data: Sector)
      requires Valid() && winsect != NO_SECTOR
      modifies `win, `wflag
      ensures Valid() && win == data
      ensures winsect < |old(Img())| && Img() == old(Img())[winsect := data]
    {
      hide Geometry.Ok;
      Layout(g);
      win := data;
      wflag := true;
    }

    /** put_fat. On success the table is the old one with one entry replaced by the masked value,
        and nothing outside the FAT changes. A failure leaves every other entry alone, and on FAT16
        and FAT32 this one too (a FAT12 entry can be left half written). */
    method PutFat(clst: nat, val: nat) returns (res: FResult)
      requires Valid()
      modifies `disk, `writesOk, `faults, `wflag, `win, `winsect, `log
      ensures Valid()
      ensures !(2 <= clst < g.nFatent) ==> res == FR_INT_ERR && Img() == old(Img()) && log == old(log)
      ensures 2 <= clst < g.nFatent ==> res == FR_OK || res == FR_DISK_ERR
      ensures res == FR_OK ==> 2 <= clst < g.nFatent && Same(g, Put(g, old(Img()), clst, val), Img())
      ensures res == FR_OK ==> Table() == old(Table())[clst := val % g.Modulus()] && log == old(log) + [Table()]
      ensures res == FR_DISK_ERR ==> log == old(log) && Undone(old(Img()), clst, val)
      ensures Quiet(g, old(Now()), Now())
      ensures faults >= old(faults) && (res == FR_DISK_ERR ==> faults > old(faults))
    {
      SameIsSameRest(g, Img(), Img());
      res := FR_INT_ERR;
      if 2 <= clst < g.nFatent {
        ghost var img := Img();
        ValidImage();
        hide Geometry.Ok, Same, SameRest, Decoded, Valid, Img, Put, Undone;
        if g.kind == FAT12 {
          res := PutFat12(clst, val);
        } else {
          res := PutCell(clst, val);
        }
        if res == FR_OK {
          DecodedPut(g, img, clst, val);
          DecodedSame(g, Put(g, img, clst, val), Img());
          log := log + [Table()];
          PutIsSameRest(g, img, Img(), clst, val);
        } else {
          UndoneRest(img, clst, val);
        }
      }
    }

    lemma UndoneRest(img: seq<Sector>, clst: nat, val: nat)
      requires Undone(img, clst, val)
      ensures SameRest(g, img, Img())
    {
      hide Put, PutHalf12;
      if Same(g, img, Img()) {
        SameIsSameRest(g, img, Img());
      } else {
        PutIsSameRest(g, img, Img(), clst, val);
      }
    }

    /** In particular no other entry is touched. */
    lemma UndoneOthers(img: seq<Sector>, clst: nat, val: nat, c: nat)
      requires Undone(img, clst, val) && c < g.nFatent && (c != clst || g.kind != FAT12)
      ensures IsImage(g, Img()) && Entry(g, Img(), c) == Entry(g, img, c)
    {
      hide Entry, PutHalf12, Same;
      if Same(g, img, Img()) {
        SameEntry(g, img, Img(), c);
      } else {
        GetAfterHalfPut(g, img, clst, val, c);
        SameEntry(g, PutHalf12(g, img, clst, val), Img(), c);
      }
    }

    /** FAT16 and FAT32: the cell lies in one sector. */
    method PutCell(clst: nat, val: nat) returns (res: FResult)
      requires Valid() && g.kind != FAT12 && clst < g.nFatent
      modifies `disk, `writesOk, `faults, `wflag, `win, `winsect
      ensures Valid() && (res == FR_OK || res == FR_DISK_ERR)
      ensures res == FR_OK ==> Same(g, Put(g, old(Img()), clst, val), Img())
      ensures res == FR_DISK_ERR ==> Undone(old(Img()), clst, val)
      ensures winsect == old(winsect) || winsect == NO_SECTOR || g.InFat1(winsect)
      ensures faults >= old(faults) && (res != FR_OK ==> faults > old(faults))
    {
      ghost var img := Img();
      ValidImage();
      EntryInFat(g, clst);
      hide Geometry.Ok, Same, Valid, Img, StWord, StDword, LdDword, Merge32, SectorOf, CellOffset;
      if g.kind == FAT16 {
        res := LoadFat(SectorOf(g, clst));
        if res == FR_OK {
          ghost var img' := Img();
          StoreWindow(StWord(win, CellOffset(g, clst), val));
          SameStore(g, img, img', winsect, win);
        }
      } else {
        res := LoadFat(SectorOf(g, clst));
        if res == FR_OK {
          ghost var img' := Img();
          StoreWindow(StDword(win, CellOffset(g, clst), Merge32(LdDword(win, CellOffset(g, clst)), val)));
          SameStore(g, img, img', winsect, win);
        }
      }
    }

    /** What a failed put_fat may have left: the image before, or on FAT12 the half-done store. */
    ghost predicate Undone(img: seq<Sector>, clst: nat, val: nat)
      reads `disk, `win, `winsect
    {
      IsImage(g, img) && clst < g.nFatent
      && (Same(g, img, Img()) || (g.kind == FAT12 && Same(g, PutHalf12(g, img, clst, val), Img())))
    }

    method PutFat12(clst: nat, val: nat) returns (res: FResult)
      requires Valid() && g.kind == FAT12 && clst < g.nFatent
      modifies `disk, `writesOk, `faults, `wflag, `win, `winsect
      ensures Valid() && (res == FR_OK || res == FR_DISK_ERR)
      ensures res == FR_OK ==> Same(g, Put(g, old(Img()), clst, val), Img())
      ensures res == FR_DISK_ERR ==> Undone(old(Img()), clst, val)
      ensures winsect == old(winsect) || winsect == NO_SECTOR || g.InFat1(winsect)
      ensures faults >= old(faults) && (res != FR_OK ==> faults > old(faults))
    {
      ghost var img := Img();
      ValidImage();
      EntryInFat(g, clst);
      hide Geometry.Ok, Same, FatByte, SetFatByte, Valid, Img, First12, Second12, Offset12;
      var bc := Offset12(clst);
      var ok, p := GetFatByte(bc);
      res := FR_DISK_ERR;
      if ok {
        ghost var img' := Img();
        StoreByte(bc, First12(clst, val, p));
        SameSet(g, img, img', bc, First12(clst, val, p));
        res := PutSecond12(clst, val, PutHalf12(g, img, clst, val));
      }
    }

    /** The second byte of a 12-bit entry. */
    method PutSecond12(clst: nat, val: nat, ghost half: seq<Sector>) returns (res: FResult)
      requires Valid() && g.kind == FAT12 && clst < g.nFatent && IsImage(g, half) && Same(g, half, Img())
      modifies `disk, `writesOk, `faults, `wflag, `win, `winsect
      ensures Valid() && (res == FR_OK || res == FR_DISK_ERR)
      ensures Offset12(clst) + 1 < SS * g.fsize
      ensures res == FR_OK ==>
                Same(g, SetFatByte(g, half, Offset12(clst) + 1,
                    Second12(clst, val, FatByte(g, half, Offset12(clst) + 1))), Img())
      ensures res == FR_DISK_ERR ==> Same(g, half, Img())
      ensures winsect == old(winsect) || winsect == NO_SECTOR || g.InFat1(winsect)
      ensures faults >= old(faults) && (res != FR_OK ==> faults > old(faults))
    {
      ghost var half' := Img();
      EntryInFat(g, clst);
      hide Geometry.Ok, Same, FatByte, SetFatByte, Valid, Img, Second12, Offset12;
      var bc := Offset12(clst) + 1;
      var ok, p := GetFatByte(bc);
      ghost var half'' := Img();
      SameTrans(g, half, half', half'');
      SameByte(g, half, half', bc);
      res := FR_DISK_ERR;
      if ok {
        StoreByte(bc, Second12(clst, val, p));
        SameSet(g, half, half'', bc, Second12(clst, val, p));
        res := FR_OK;
      }
    }

    /** Stores byte b of the FAT, whose sector is in the window. */
    method StoreByte(b: nat, v: Byte)
      requires Valid() && b < SS * g.fsize && winsect == g.fatbase + b / SS
      modifies `win, `wflag
      ensures Valid() && Img() == SetFatByte(g, old(Img()), b, v)
    {
      ValidImage();
      FatByteSector(b);
      InWindow();
      Layout(g);
      hide Geometry.Ok, Valid, Img;
      StoreWindow(win[b % SS := v]);
    }
  }

  lemma SameStore(g: Geometry, a: seq<Sector>, b: seq<Sector>, s: nat, data: Sector)
    requires Same(g, a, b) && s < |a|
    ensures |a| == |b| && Same(g, a[s := data], b[s := data])
  {
  }
}
