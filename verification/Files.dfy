/** The FIL object of Externals/FatFs/ff.c: f_read, f_write, f_lseek and f_truncate on one open file. */
module Files {
  import opened Radix
  import opened FatTable
  import opened FatVolume
  import opened FatChains
  import opened FileView
  import opened FileIO
  import opened FileState

  /** clst2sect: the first sector of a cluster, 0 for a number out of range. */
  function Clst2Sect(g: Geometry, clst: nat): nat {
    if Sub32(clst, 2) >= Sub32(g.nFatent, 2) then 0 else g.database + g.csize * Sub32(clst, 2)
  }

  /** Inside the chain clst2sect never fails. */
  lemma SectorOfCluster(g: Geometry, chain: seq<nat>, k: nat)
    requires GoodClusters(g, chain) && k < |chain| * g.csize
    ensures k / g.csize < |chain| && chain[k / g.csize] >= 2
    ensures Clst2Sect(g, chain[k / g.csize]) + k % g.csize == DataSector(g, chain, k)
    ensures Clst2Sect(g, chain[k / g.csize]) != 0
  {
    InChain(|chain|, g.csize, k);
    ClusterBase(g, chain[k / g.csize]);
    hide Geometry.Ok, Clst2Sect;
  }

  lemma ClusterBase(g: Geometry, c: nat)
    requires g.Ok() && 2 <= c < g.nFatent
    ensures Clst2Sect(g, c) == FirstSector(g, c) > 0
  {
    assert g.nFatent < 0x1_0000_0000 && g.database > 0;
    hide Geometry.Ok;
  }

  lemma StaysInMaybe(x: Shot, p: nat, clust: nat)
    requires Base(x) && At(x, p, clust) && p % SS == 0
    ensures p / SS % x.g.csize != 0 ==> In(x, p / SS, clust)
  {
    if p / SS % x.g.csize != 0 {
      StaysIn(x, p, clust);
    }
  }

  lemma ClusterSector(x: Shot, k: nat, clust: nat)
    requires Base(x) && In(x, k, clust)
    ensures Clst2Sect(x.g, clust) != 0 && Clst2Sect(x.g, clust) + k % x.g.csize == DataSector(x.g, x.chain, k)
  {
    SectorOfCluster(x.g, x.chain, k);
  }

  lemma CanRun(x: Shot, k: nat, clust: nat, n: nat)
    requires Base(x) && In(x, k, clust) && 0 < n && k % x.g.csize + n <= x.g.csize
    ensures RunFits(x, k, n)
  {
  }

  lemma TableWide(x: Shot)
    requires Sound(x)
    ensures |x.t| == x.g.nFatent <= Eoc(x.g) && !Links(x.t, 0)
  {
    EocEnds(x.g);
  }

  /** disk_read of n sectors of the data area. */
  method ReadRun(fs: FatFs, s: nat, n: nat) returns (ok: bool, d: seq<Byte>)
    requires fs.Valid() && s + n <= fs.g.nSectors && !(s <= fs.winsect < s + n)
    modifies fs`faults
    ensures ok ==> |d| == SS * n && s + n <= |fs.Img()| && forall q :: 0 <= q < n ==> Cells(d, n)[q] == fs.Img()[s + q]
    ensures fs.faults >= old(fs.faults) && (!ok ==> fs.faults > old(fs.faults))
  {
    fs.ValidImage();
    hide FatFs.Valid, FatFs.Img, Geometry.Ok;
    d := [];
    ok := true;
    var i := 0;
    while i < n
      invariant fs.faults >= old(fs.faults)
      invariant i <= n && |d| == SS * i && forall q :: 0 <= q < i ==> Cells(d, i)[q] == fs.Img()[s + q]
    {
      var cell;
      ok, cell := fs.ReadData(s + i);
      if !ok {
        return;
      }
      OneMore(d, cell, i);
      d := d + cell;
      i := i + 1;
    }
  }

  lemma RunFitsSome(x: Shot, k: nat, n: nat)
    requires x.g.csize > 0 && RunFits(x, k, n)
    ensures n > 0
  {
  }

  lemma AtStart(x: Shot, clust: nat)
    requires Sound(x)
    ensures At(x, 0, clust)
  {
  }

  lemma FirstBegins(x: Shot, clust: nat)
    requires Sound(x) && In(x, 0, clust)
    ensures Begins(x, 0, clust)
  {
    SoundBase(x);
  }

  lemma KeptContentMaybe(x: Shot, y: Shot)
    ensures Kept(x, y) ==> Content(y) == Content(x)
  {
  }

  lemma PrecedingCluster(x: Shot, k: nat, clust: nat)
    requires Base(x) && Precedes(x, k, clust)
    ensures IsCluster(x.t, clust) && |x.t| == x.g.nFatent < DISK_ERROR && (Links(x.t, clust) ==> In(x, k, x.t[clust]))
  {
    SmallVolume(x.g);
  }

  lemma EndsKept(x: Shot, y: Shot, k: nat, clust: nat)
    requires Kept(x, y) && Ends(x, k, clust)
    ensures Ends(y, k, clust)
  {
  }

  lemma NowBegins(x: Shot, k: nat, clust: nat)
    requires Sound(x) && In(x, k, clust) && x.g.csize > 0 && k % x.g.csize == 0
    ensures Begins(x, k, clust)
  {
  }

  lemma KeptLanded(x: Shot, y: Shot, p: nat, clust: nat, nsect: nat)
    requires Kept(x, y) && Landed(x, p, clust, nsect)
    ensures Framed(y) && Landed(y, p, clust, nsect)
  {
  }

  lemma AtBound(x: Shot, p: nat, clust: nat)
    requires Framed(x) && At(x, p, clust)
    ensures p <= x.objsize
  {
  }

  /** How many of n bytes fit behind position p: f_write checks the 32-bit sum for wrap-around. */
  function Room(p: nat, n: nat): int
  {
    if (p + n) % 0x1_0000_0000 < p then 0xFFFF_FFFF - p else n
  }

  /** r is b with d written at p. */
  predicate Overwritten(b: seq<Byte>, p: nat, d: seq<Byte>, r: seq<Byte>) {
    p <= |b| && r == Overwrite(b, p, d)
  }

  function Min(a: int, b: int): int {
    if a < b then a else b
  }

  /** A file of a well-formed table never meets an entry that reads 1. */
  lemma NeverBad(x: Shot)
    requires Sound(x)
    ensures !HasBadEntry(x.t) && (x.sclust != 0 ==> IsCluster(x.t, x.sclust))
  {
  }

  /** No cluster number looks like a disk error. */
  lemma SmallTable(x: Shot)
    requires Sound(x)
    ensures |x.t| < DISK_ERROR
  {
    SmallVolume(x.g);
  }

  lemma NeverInsane(x: Shot, k: nat, clust: nat)
    requires Base(x) && Precedes(x, k, clust)
    ensures !Insane(x.t, clust)
  {
  }

  /** Removing the whole chain, or all after the cursor's cluster, meets no free entry on the way. */
  lemma EraseWorks(x: Shot, eoc: nat)
    requires Sound(x) && x.objsize > 0 && eoc >= |x.t|
    ensures IsCluster(x.t, x.sclust) && RemoveFrom(Cut(x.t, 0, eoc), x.sclust).1
  {
    hide WellFormed, RemoveFrom, Cut;
    Erasable(x);
    OwnedErased(x.t, x.chain, x.sclust, x.ours, eoc);
    RemovesExactly(x.t, x.chain, 0, eoc);
  }

  lemma ShortenWorks(x: Shot, p: nat, clust: nat, eoc: nat)
    requires Sound(x) && At(x, p, clust) && p > 0 && eoc >= |x.t|
    ensures IsCluster(x.t, clust)
    ensures var ncl := x.t[clust]; IsCluster(x.t, ncl) ==> RemoveFrom(Cut(x.t, clust, eoc), ncl).1
  {
    hide Sound, At, WellFormed, RemoveFrom, Cut, ClusterIndex;
    SoundBase(x);
    CursorCluster(x, p, clust);
    var n := ClusterIndex(x.g, p) + 1;
    if n < |x.chain| {
      CutWorks(x.t, x.chain, x.sclust, x.ours, n, eoc);
    }
  }

  lemma CutWorks(t: Table, chain: seq<nat>, sclust: nat, ours: set<nat>, n: nat, eoc: nat)
    requires Owned(t, chain, sclust, ours) && 0 < n < |chain| && eoc >= |t|
    ensures RemoveFrom(Cut(t, chain[n - 1], eoc), chain[n]).1
  {
    OwnedCut(t, chain, sclust, ours, n, eoc);
    SuffixChain(t, chain, n);
    hide WellFormed, RemoveFrom, Cut;
    RemovesExactly(t, chain[n..], chain[n - 1], eoc);
  }

  /** Without a first cluster the file is empty. */
  lemma EmptyFile(x: Shot)
    requires Sound(x) && x.sclust == 0
    ensures x.objsize == 0
  {
  }

  /** The end of the chain is not before the end of the file. */
  lemma EndsAtSize(x: Shot, k: nat, clust: nat)
    requires Framed(x) && Ends(x, k, clust)
    ensures SS * k >= x.objsize
  {
  }

  lemma InCluster(x: Shot, k: nat, clust: nat)
    requires Framed(x) && In(x, k, clust)
    ensures 2 <= clust < x.g.nFatent
  {
  }

  /** disk_write of n sectors of the data area. */
  method WriteRun(fs: FatFs, s: nat, n: nat, d: seq<Byte>, ghost x: Shot) returns (ok: bool)
    requires fs.Valid() && n > 0 && |d| == SS * n && x.g == fs.g && x.winsect == fs.winsect && x.g.csize > 0
    requires forall i :: s <= i < s + n ==> Usable(x, i)
    modifies fs`disk, fs`writesOk, fs`faults
    ensures ok ==> fs.Valid() && fs.Table() == old(fs.Table())
    ensures ok ==> s + n <= |old(fs.Img())| && fs.Img() == Splice(old(fs.Img()), s, Cells(d, n))
    ensures fs.faults >= old(fs.faults) && (!ok ==> fs.faults > old(fs.faults))
  {
    ghost var img, t := fs.Img(), fs.Table();
    InsideDisk(fs, s, n, x);
    hide FatFs.Valid, FatFs.Img, FatFs.Table, Geometry.Ok, InOurs, Cells;
    ok := true;
    var i := 0;
    SpliceNothing(img, s);
    while i < n
      invariant i <= n && fs.Valid() && fs.Table() == t && fs.faults >= old(fs.faults)
      invariant fs.Img() == Splice(img, s, Cells(d, n)[..i])
    {
      assert Usable(x, s + i);
      ok := fs.WriteData(s + i, d[SS * i..SS * i + SS]);
      if !ok {
        return;
      }
      SpliceMore(img, s, d, n, i);
      i := i + 1;
    }
    assert Cells(d, n)[..n] == Cells(d, n);
  }

  lemma InsideDisk(fs: FatFs, s: nat, n: nat, x: Shot)
    requires fs.Valid() && x.g == fs.g && x.g.csize > 0 && n > 0 && forall i :: s <= i < s + n ==> Usable(x, i)
    ensures s + n <= |fs.Img()|
  {
    assert Usable(x, s + n - 1);
  }

  lemma SpliceNothing(img: seq<Sector>, s: nat)
    requires s <= |img|
    ensures Splice(img, s, []) == img
  {
  }

  lemma SpliceMore(img: seq<Sector>, s: nat, d: seq<Byte>, n: nat, i: nat)
    requires |d| == SS * n && i < n && s + n <= |img|
    ensures SS * i + SS <= |d|
    ensures Splice(img, s, Cells(d, n)[..i])[s + i := d[SS * i..SS * i + SS]] == Splice(img, s, Cells(d, n)[..i + 1])
  {
  }

  lemma OneMore(d: seq<Byte>, cell: Sector, i: nat)
    requires |d| == SS * i
    ensures Cells(d + cell, i + 1) == Cells(d, i) + [cell]
  {
    var a, b := Cells(d + cell, i + 1), Cells(d, i) + [cell];
    forall q | 0 <= q < i + 1
      ensures a[q] == b[q]
    {
      if q < i {
        assert (d + cell)[SS * q..SS * q + SS] == d[SS * q..SS * q + SS];
      }
    }
  }

  class File {
    const fs: FatFs
    const canRead: bool
    const canWrite: bool
    ghost const ours: set<nat>
    var fptr: nat
    var objsize: nat
    var sclust: nat
    var clust: nat
    var sect: nat
    var buf: Sector
    var dirty: bool
    var modified: bool
    var err: FResult
    ghost var chain: seq<nat>

    /** A file just opened. */
    constructor (fs: FatFs, sclust: nat, objsize: nat, canRead: bool, canWrite: bool, ghost chain: seq<nat>,
        ghost ours: set<nat>)
      requires fs.Valid() && GoodClusters(fs.g, chain) && Owned(fs.Table(), chain, sclust, ours)
      requires Clear(fs.g, ours, fs.winsect) && objsize <= SS * (|chain| * fs.g.csize) && objsize < 0x1_0000_0000
      ensures Valid() && fptr == 0 && this.objsize == objsize && err == FR_OK
      ensures Bytes() == Flat(View(fs.g, chain, fs.Img(), false, 0, seq(512, i => 0)), objsize)
    {
      hide Owned, Distinct, Clear, GoodClusters, FatFs.Valid, FatFs.Img, View, Sound, Base, At;
      this.fs, this.sclust, this.objsize, this.canRead, this.canWrite := fs, sclust, objsize, canRead, canWrite;
      this.chain, this.ours := chain, ours;
      fptr, clust, sect, buf, dirty, modified, err := 0, 0, 0, seq(512, i => 0), false, false, FR_OK;
      new;
      fs.ValidImage();
      OpenStep(Now(), 0);
    }

    ghost function Now(): Shot
      reads `chain, `sclust, `objsize, `dirty, `sect, `buf, fs`disk, fs`win, fs`winsect
    {
      Shot(fs.g, fs.Table(), fs.Img(), fs.winsect, chain, ours, sclust, objsize, dirty, sect, buf)
    }

    ghost predicate Steady()
      reads `chain, `sclust, `objsize, `dirty, `sect, `buf, fs`disk, fs`win, fs`winsect, fs`wflag, fs`writesOk
    {
      fs.Valid() && Sound(Now())
    }

    ghost predicate Valid()
      reads `chain, `sclust, `objsize, `dirty, `sect, `buf, `fptr, `clust, fs`disk, fs`win, fs`winsect, fs`wflag,
          fs`writesOk
    {
      Steady() && At(Now(), fptr, clust)
    }

    /** The bytes of the file, as a reader from position 0 would see them. */
    ghost function Bytes(): (b: seq<Byte>)
      requires Steady()
      reads `chain, `sclust, `objsize, `dirty, `sect, `buf, fs`disk, fs`win, fs`winsect, fs`wflag, fs`writesOk
      ensures |b| == objsize
    {
      Content(Now())
    }

    lemma Cursor()
      requires Valid()
      ensures fptr <= objsize < 0x1_0000_0000 && |Bytes()| == objsize
    {
    }

    /** Writes the sector buffer back if it is dirty. */
    method Flush() returns (res: FResult)
      requires Steady()
      modifies fs`disk, fs`writesOk, fs`faults, `dirty
      ensures res == FR_OK || res == FR_DISK_ERR
      ensures res == FR_OK ==> Steady() && !dirty && Kept(old(Now()), Now()) && fs.Table() == old(fs.Table())
      ensures fs.faults >= old(fs.faults) && (res != FR_OK ==> fs.faults > old(fs.faults))
    {
      res := FR_OK;
      if dirty {
        ghost var x := Now();
        OwnedGood(fs.g, x.t, chain, sclust, ours);
        OursInside(fs.g, ours, sect);
        hide Owned, Clear, Distinct, GoodClusters, View, FatFs.Valid, FatFs.Img, Geometry.Ok, InOurs, FatFs.Table;
        var ok := fs.WriteData(sect, buf);
        if !ok {
          return FR_DISK_ERR;
        }
        dirty := false;
        FlushStep(x, Now());
      }
    }

    /** Brings sector k of the file, at s on the disk, into the buffer. */
    method Fetch(s: nat, ghost k: nat) returns (res: FResult)
      requires Steady() && k < |chain| * fs.g.csize && s == DataSector(fs.g, chain, k)
      modifies fs`disk, fs`writesOk, fs`faults, `dirty, `buf, `sect
      ensures res == FR_OK || res == FR_DISK_ERR
      ensures res == FR_OK ==> Steady() && sect == s && Kept(old(Now()), Now()) && fs.Table() == old(fs.Table())
      ensures fs.faults >= old(fs.faults) && (res != FR_OK ==> fs.faults > old(fs.faults))
    {
      res := FR_OK;
      if sect != s {
        res := Flush();
        if res == FR_OK {
          res := LoadClean(s, k);
        }
      }
    }

    /** The read of Fetch, when the buffer is clean. */
    method LoadClean(s: nat, ghost k: nat) returns (res: FResult)
      requires Steady() && !dirty && k < |chain| * fs.g.csize && s == DataSector(fs.g, chain, k)
      modifies `buf, `sect, fs`faults
      ensures res == FR_OK || res == FR_DISK_ERR
      ensures res == FR_OK ==> Steady() && sect == s && Kept(old(Now()), Now())
      ensures fs.faults >= old(fs.faults) && (res != FR_OK ==> fs.faults > old(fs.faults))
    {
      ghost var x := Now();
      DataSectorInside(fs.g, chain, k);
      DataSectorOurs(fs.g, chain, ours, k);
      hide Owned, Distinct, GoodClusters, View, FatFs.Valid, FatFs.Img, Geometry.Ok, InOurs, FatFs.Table;
      var ok, data := fs.ReadData(s);
      if !ok {
        return FR_DISK_ERR;
      }
      buf := data;
      sect := s;
      LoadStep(x, Now(), k);
      res := FR_OK;
    }

    /** f_read on a cluster boundary: moves to the cluster of the next byte. */
    method FollowRead() returns (res: FResult)
      requires Valid() && fptr % SS == 0 && fptr / SS % fs.g.csize == 0 && fptr < objsize
      modifies fs`disk, fs`writesOk, fs`faults, fs`wflag, fs`win, fs`winsect, `clust
      ensures res == FR_OK || res == FR_DISK_ERR
      ensures res == FR_OK ==> Steady() && Kept(old(Now()), Now()) && fs.Table() == old(fs.Table())
      ensures res == FR_OK ==> In(Now(), fptr / SS, clust)
      ensures fs.faults >= old(fs.faults) && (res != FR_OK ==> fs.faults > old(fs.faults))
    {
      hide Sound, Base, Framed, At, Kept, In, FatFs.Valid, FatFs.Img, FatFs.Table, Geometry.Ok, Quiet, Same, DataSector;
      ghost var x := Now();
      SoundBase(x);
      LeadsOn(x, fptr, clust);
      KeptRefl(x);
      var clst := sclust;
      if fptr != 0 {
        clst := fs.GetFat(clust);
      }
      if clst < 2 {
        return FR_INT_ERR;
      }
      if clst == DISK_ERROR {
        return FR_DISK_ERR;
      }
      clust := clst;
      res := FR_OK;
      if fptr != 0 {
        QuietStep(x, Now());
        InKept(x, Now(), fptr / SS, clust);
      }
    }

    /** f_read on a sector boundary: the sector to read next. */
    method LocateRead() returns (res: FResult, s: nat)
      requires Valid() && fptr % SS == 0 && fptr < objsize
      modifies fs`disk, fs`writesOk, fs`faults, fs`wflag, fs`win, fs`winsect, `clust
      ensures res == FR_OK || res == FR_DISK_ERR
      ensures res == FR_OK ==> Steady() && Kept(old(Now()), Now()) && fs.Table() == old(fs.Table())
      ensures res == FR_OK ==> In(Now(), fptr / SS, clust) && s == DataSector(fs.g, chain, fptr / SS)
      ensures fs.faults >= old(fs.faults) && (res != FR_OK ==> fs.faults > old(fs.faults))
    {
      hide Sound, Base, Framed, At, Kept, In, Clst2Sect, FatFs.Valid, FatFs.Img, FatFs.Table, Geometry.Ok, DataSector;
      ghost var x := Now();
      SoundBase(x);
      KeptRefl(x);
      StaysInMaybe(x, fptr, clust);
      s := 0;
      res := FR_OK;
      var csect := fptr / SS % fs.g.csize;    // csize is a power of two
      if csect == 0 {
        res := FollowRead();
      }
      if res == FR_OK {
        s := Clst2Sect(fs.g, clust);
        SoundBase(Now());
        ClusterSector(Now(), fptr / SS, clust);
        if s == 0 {
          res := FR_INT_ERR;
          return;
        }
        s := s + csect;
      }
    }

    /** Reads n whole sectors past the buffer. */
    method DirectRead(s: nat, n: nat, ghost k: nat) returns (res: FResult, data: seq<Byte>)
      requires Steady() && fptr == SS * k && In(Now(), k, clust) && s == DataSector(fs.g, chain, k)
      requires RunFits(Now(), k, n) && fptr + SS * n <= objsize
      modifies fs`faults
      ensures res == FR_OK || res == FR_DISK_ERR
      ensures res == FR_OK ==> data == Content(Now())[fptr..fptr + SS * n] && At(Now(), fptr + SS * n, clust)
      ensures fs.faults >= old(fs.faults) && (res != FR_OK ==> fs.faults > old(fs.faults))
    {
      hide Sound, Base, Framed, At, Kept, In, RunFits, FatFs.Valid, FatFs.Img, FatFs.Table, Geometry.Ok, DataSector,
          Content, GoodClusters, Cells, Merged, Sub32, Usable;
      SoundBase(Now());
      RunClear(Now(), k, n);
      var ok, d := ReadRun(fs, s, n);
      if !ok {
        return FR_DISK_ERR, [];
      }
      data := Merged(d, n, dirty, Sub32(sect, s), buf);
      RunReadDone(Now(), fptr, k, n, d, data, clust);
      res := FR_OK;
    }

    /** Extracts part of the buffered sector. */
    method PartRead(btr: nat) returns (data: seq<Byte>)
      requires Steady() && In(Now(), fptr / SS, clust) && sect == DataSector(fs.g, chain, fptr / SS)
      requires 0 < btr <= objsize - fptr
      ensures 0 < |data| <= btr && data == Content(Now())[fptr..fptr + |data|] && At(Now(), fptr + |data|, clust)
    {
      hide Sound, Base, Framed, At, In, FatFs.Valid, FatFs.Img, FatFs.Table, Geometry.Ok, DataSector, Content,
          GoodClusters;
      var o := fptr % SS;
      var rcnt := SS - o;
      if rcnt > btr {
        rcnt := btr;
      }
      PartReadDone(Now(), fptr, rcnt, clust);
      data := buf[o..o + rcnt];
    }

    /** What a round of f_read leaves for the cursor to pass over. */
    ghost predicate Delivered(x: Shot, btr: nat, data: seq<Byte>)
      reads this, fs
    {
      && Steady() && Kept(x, Now()) && 0 < |data| <= btr && fptr + |data| <= objsize
      && data == Content(x)[fptr..fptr + |data|] && At(Now(), fptr + |data|, clust)
    }

    /** Reads whole sectors, up to the end of the cluster. */
    method ReadSectors(s: nat, btr: nat, ghost x: Shot) returns (res: FResult, data: seq<Byte>)
      requires Steady() && Kept(x, Now()) && fptr % SS == 0 && In(Now(), fptr / SS, clust)
          && s == DataSector(fs.g, chain, fptr / SS)
      requires SS <= btr <= objsize - fptr
      modifies fs`faults
      ensures res == FR_OK || res == FR_DISK_ERR
      ensures res == FR_OK ==> Delivered(x, btr, data)
      ensures fs.faults >= old(fs.faults) && (res != FR_OK ==> fs.faults > old(fs.faults))
    {
      hide Sound, Base, Framed, At, In, Kept, FatFs.Valid, FatFs.Img, FatFs.Table, Geometry.Ok, DataSector, Content,
          GoodClusters, RunFits;
      SoundBase(Now());
      KeptContent(x, Now());
      var csect := fptr / SS % fs.g.csize;
      var cc := btr / SS;
      if csect + cc > fs.g.csize {
        cc := fs.g.csize - csect;
      }
      CanRun(Now(), fptr / SS, clust, cc);
      res, data := DirectRead(s, cc, fptr / SS);
    }

    /** On a sector boundary. */
    method ReadAligned(btr: nat) returns (res: FResult, data: seq<Byte>)
      requires Valid() && fptr % SS == 0 && 0 < btr <= objsize - fptr
      modifies fs`disk, fs`writesOk, fs`faults, fs`wflag, fs`win, fs`winsect, `clust, `dirty, `buf, `sect
      ensures res == FR_OK || res == FR_DISK_ERR
      ensures res == FR_OK ==> Delivered(old(Now()), btr, data) && fs.Table() == old(fs.Table())
      ensures fs.faults >= old(fs.faults) && (res != FR_OK ==> fs.faults > old(fs.faults))
    {
      hide Sound, Base, Framed, At, In, Kept, FatFs.Valid, FatFs.Img, FatFs.Table, Geometry.Ok, DataSector, Content,
          GoodClusters;
      data := [];
      ghost var x := Now();
      var s;
      res, s := LocateRead();
      if res != FR_OK {
        return;
      }
      ghost var y := Now();
      KeptContent(x, y);
      if btr / SS > 0 {
        res, data := ReadSectors(s, btr, x);
      } else {
        SoundBase(y);
        InFacts(y, fptr / SS, clust);
        res := Fetch(s, fptr / SS);
        if res == FR_OK {
          KeptTrans(x, y, Now());
          InKept(y, Now(), fptr / SS, clust);
          KeptContent(y, Now());
          data := PartRead(btr);
        }
      }
    }

    /** One round of f_read: reads some of the next btr bytes. */
    method ReadSome(btr: nat) returns (res: FResult, data: seq<Byte>)
      requires Valid() && 0 < btr <= objsize - fptr
      modifies fs`disk, fs`writesOk, fs`faults, fs`wflag, fs`win, fs`winsect, `fptr, `clust, `dirty, `buf, `sect
      ensures res == FR_OK || res == FR_DISK_ERR
      ensures res == FR_OK ==> Valid() && fs.Table() == old(fs.Table()) && Bytes() == old(Bytes())
      ensures res == FR_OK ==> 0 < |data| <= btr && fptr == old(fptr) + |data|
      ensures res == FR_OK ==> data == old(Bytes())[old(fptr)..fptr]
      ensures fs.faults >= old(fs.faults) && (res != FR_OK ==> fs.faults > old(fs.faults))
    {
      hide Sound, Base, Framed, At, In, Kept, FatFs.Valid, FatFs.Img, FatFs.Table, Geometry.Ok, DataSector, Content,
          GoodClusters;
      ghost var x := Now();
      if fptr % SS == 0 {
        res, data := ReadAligned(btr);
      } else {
        SoundBase(x);
        StaysIn(x, fptr, clust);
        KeptRefl(x);
        InFacts(x, fptr / SS, clust);
        data := PartRead(btr);
        res := FR_OK;
      }
      if res == FR_OK {
        KeptContent(x, Now());
        fptr := fptr + |data|;
      }
    }

    /** No cluster is free, or the cached count says so. */
    ghost predicate Full()
      reads fs
    {
      fs.freeClst == 0 || FreeSet(fs.Table()) == {}
    }

    /** Gives a file without clusters its first one; 0 when the disk is full. */
    method FirstCluster() returns (clst: nat)
      requires Steady() && sclust == 0
      modifies fs, `sclust, `chain
      ensures clst != 1 && (clst == 0 ==> Steady() && Kept(old(Now()), Now()) && Full())
      ensures 2 <= clst && clst != DISK_ERROR ==>
              Steady() && sclust == clst && In(Now(), 0, clst) && Content(Now()) == old(Content(Now()))
      ensures fs.faults >= old(fs.faults) && (clst == DISK_ERROR ==> fs.faults > old(fs.faults))
    {
      hide Sound, Base, Framed, At, In, Kept, FatFs.Valid, FatFs.Img, FatFs.Table, Geometry.Ok, Content,
          GoodClusters, Quiet, Chosen, Stretched, Eoc, Links, WellFormed, CountIs, HasBadEntry;
      ghost var x, last := Now(), fs.lastClst;
      TableWide(x);
      NeverBad(x);
      clst := CreateChain(fs, 0);
      if clst == 0 {
        QuietStep(x, Now());
      } else if 2 <= clst && clst != DISK_ERROR {
        ChosenFree(x.t, 0, last, clst);
        sclust := clst;
        chain := [clst];
        FirstStep(x, Now(), clst, Eoc(fs.g));
      }
    }

    /** Follows the chain from cluster c, or stretches it; 0 when the disk is full. */
    method NextCluster(c: nat, ghost k: nat) returns (clst: nat)
      requires Steady() && Precedes(Now(), k, c)
      modifies fs, `chain
      ensures clst != 1 && (clst == 0 ==> Steady() && Kept(old(Now()), Now()) && Full())
      ensures clst == 0 ==> Ends(old(Now()), k, c)
      ensures 2 <= clst && clst != DISK_ERROR ==>
              Steady() && In(Now(), k, clst) && Content(Now()) == old(Content(Now()))
      ensures old(chain) <= chain
      ensures fs.faults >= old(fs.faults) && (clst == DISK_ERROR ==> fs.faults > old(fs.faults))
    {
      hide Sound, Base, Framed, At, In, Kept, Ends, FatFs.Valid, FatFs.Img, FatFs.Table, Geometry.Ok, Content,
          GoodClusters, Quiet, Chosen, Stretched, Eoc, WellFormed, CountIs, HasBadEntry, Insane;
      ghost var x, last := Now(), fs.lastClst;
      TableWide(x);
      NeverBad(x);
      SoundBase(x);
      NeverInsane(x, k, c);
      clst := CreateChain(fs, c);
      if clst == 0 || Links(x.t, c) {
        if clst != DISK_ERROR {
          QuietStep(x, Now());
          if clst != 0 {
            KeptContent(x, Now());
            InKept(x, Now(), k, clst);
          }
        }
      } else if 2 <= clst && clst != DISK_ERROR {
        ChosenFree(x.t, c, last, clst);
        chain := chain + [clst];
        StretchStep(x, Now(), k, c, clst, Eoc(fs.g));
      }
    }

    /** f_write on a cluster boundary: moves to the cluster of the next byte, making it if need be. */
    method EnterCluster() returns (res: FResult, full: bool)
      requires Valid() && fptr % SS == 0 && fptr / SS % fs.g.csize == 0
      modifies fs, `sclust, `clust, `chain
      ensures res == FR_OK || res == FR_DISK_ERR
      ensures res == FR_OK && !full ==> Steady() && In(Now(), fptr / SS, clust)
      ensures res == FR_OK && full ==> Valid() && Full() && fptr == objsize
      ensures res == FR_OK ==> Content(Now()) == old(Content(Now()))
      ensures fs.faults >= old(fs.faults) && (res != FR_OK ==> fs.faults > old(fs.faults))
    {
      hide Sound, Base, Framed, At, In, Kept, Precedes, Ends, FatFs.Valid, FatFs.Img, FatFs.Table, Geometry.Ok,
          Content, GoodClusters, Full;
      ghost var x := Now();
      SoundBase(x);
      NeverBad(x);
      SmallTable(x);
      full := false;
      var clst;
      if fptr == 0 {
        clst := sclust;
        if clst == 0 {
          EmptyFile(x);
          clst := FirstCluster();
        } else {
          FirstIn(x);
        }
      } else {
        LeadsOnOrEnds(x, fptr, clust);
        clst := NextCluster(clust, fptr / SS);
        if clst == 0 {
          EndsAtSize(x, fptr / SS, clust);
        }
      }
      if clst == 0 {
        AtBound(x, fptr, clust);
        AtKept(x, Now(), fptr, clust);
        KeptContent(x, Now());
        return FR_OK, true;
      }
      if clst == 1 {
        return FR_INT_ERR, false;
      }
      if clst == DISK_ERROR {
        return FR_DISK_ERR, false;
      }
      clust := clst;
      res := FR_OK;
    }

    /** f_write on a sector boundary: the sector to write next, with the buffer clean. */
    method LocateWrite() returns (res: FResult, full: bool, s: nat)
      requires Valid() && fptr % SS == 0
      modifies fs, `sclust, `clust, `chain, `dirty
      ensures res == FR_OK || res == FR_DISK_ERR
      ensures res == FR_OK && !full ==>
              Steady() && !dirty && In(Now(), fptr / SS, clust) && s == DataSector(fs.g, chain, fptr / SS)
      ensures res == FR_OK && full ==> Valid() && Full() && fptr == objsize
      ensures res == FR_OK ==> Content(Now()) == old(Content(Now()))
      ensures fs.faults >= old(fs.faults) && (res != FR_OK ==> fs.faults > old(fs.faults))
    {
      hide Sound, Base, Framed, At, In, Kept, Clst2Sect, FatFs.Valid, FatFs.Img, FatFs.Table, Geometry.Ok, Content,
          GoodClusters, Full, DataSector;
      ghost var x := Now();
      SoundBase(x);
      StaysInMaybe(x, fptr, clust);
      full, s, res := false, 0, FR_OK;
      var csect := fptr / SS % fs.g.csize;
      if csect == 0 {
        res, full := EnterCluster();
      }
      if res == FR_OK && !full {
        ghost var y := Now();
        res := Flush();
        if res == FR_OK {
          KeptContent(y, Now());
          InKept(y, Now(), fptr / SS, clust);
          SoundBase(Now());
          s := Clst2Sect(fs.g, clust);
          ClusterSector(Now(), fptr / SS, clust);
          if s == 0 {
            res := FR_INT_ERR;
            return;
          }
          s := s + csect;
        }
      }
    }

    /** Makes the clean buffer stand for the sector at the cursor; past the end of the file nothing is read. */
    method FillBuffer(s: nat) returns (res: FResult)
      requires Steady() && !dirty && fptr % SS == 0 && fptr <= objsize
      requires In(Now(), fptr / SS, clust) && s == DataSector(fs.g, chain, fptr / SS)
      modifies `buf, `sect, fs`faults
      ensures res == FR_OK || res == FR_DISK_ERR
      ensures res == FR_OK ==>
              Ready(Now(), fptr / SS) && In(Now(), fptr / SS, clust) && Content(Now()) == old(Content(Now()))
      ensures fs.faults >= old(fs.faults) && (res != FR_OK ==> fs.faults > old(fs.faults))
    {
      hide Sound, Base, Framed, In, Kept, Ready, FatFs.Valid, FatFs.Img, FatFs.Table, Geometry.Ok, Content,
          GoodClusters, DataSector;
      ghost var x, k := Now(), fptr / SS;
      SoundBase(x);
      InFacts(x, k, clust);
      res := FR_OK;
      if sect != s && fptr < objsize {
        res := LoadClean(s, k);
        if res == FR_OK {
          KeptContent(x, Now());
          InKept(x, Now(), k, clust);
          FetchedReady(Now(), k, clust);
        }
      } else if sect != s {
        sect := s;
        MadeOver(x, Now(), k, clust);
      } else {
        FetchedReady(x, k, clust);
      }
    }

    /** Writes n whole sectors past the buffer, which is refilled if it stands for one of them. */
    method DirectWrite(s: nat, n: nat, d: seq<Byte>, ghost k: nat) returns (res: FResult)
      requires Steady() && !dirty && fptr == SS * k && In(Now(), k, clust) && s == DataSector(fs.g, chain, k)
      requires RunFits(Now(), k, n) && |d| == SS * n && fptr <= objsize && fptr + |d| < 0x1_0000_0000
      modifies fs`disk, fs`writesOk, fs`faults, `objsize, `buf
      ensures res == FR_OK || res == FR_DISK_ERR
      ensures res == FR_OK ==> Steady() && At(Now(), fptr + |d|, clust)
      ensures res == FR_OK ==> Content(Now()) == Overwrite(old(Content(Now())), fptr, d)
      ensures fs.faults >= old(fs.faults) && (res != FR_OK ==> fs.faults > old(fs.faults))
    {
      hide Sound, Base, Framed, At, In, RunFits, FatFs.Valid, FatFs.Img, FatFs.Table, Geometry.Ok, DataSector,
          Content, GoodClusters, Cells, Splice, Refilled, Sub32, Usable, Overwrite;
      ghost var x := Now();
      SoundBase(x);
      RunClear(x, k, n);
      RunFitsSome(x, k, n);
      var ok := WriteRun(fs, s, n, d, x);
      if !ok {
        return FR_DISK_ERR;
      }
      buf := Refilled(buf, d, n, Sub32(sect, s));
      objsize := Max(objsize, fptr + |d|);
      RunWriteDone(x, Now(), fptr, k, n, d, clust);
      res := FR_OK;
    }

    /** Puts the front of d into the buffered sector. */
    method PartWrite(d: seq<Byte>) returns (wcnt: nat)
      requires fs.Valid() && Ready(Now(), fptr / SS) && In(Now(), fptr / SS, clust)
      requires |d| > 0 && fptr <= objsize && fptr + |d| < 0x1_0000_0000
      modifies `buf, `dirty, `objsize
      ensures 0 < wcnt <= |d| && Steady() && At(Now(), fptr + wcnt, clust)
      ensures Content(Now()) == Overwrite(old(Content(Now())), fptr, d[..wcnt])
    {
      hide Base, Framed, At, In, Ready, FatFs.Valid, FatFs.Img, FatFs.Table, Geometry.Ok, Content, Overwrite;
      ghost var x := Now();
      var o := fptr % SS;
      wcnt := SS - o;
      if wcnt > |d| {
        wcnt := |d|;
      }
      buf := buf[..o] + d[..wcnt] + buf[o + wcnt..];
      dirty := true;
      objsize := Max(objsize, fptr + wcnt);
      PartWriteDone(x, Now(), fptr, d[..wcnt], clust);
    }

    /** What a round of f_write leaves for the cursor to pass over. */
    ghost predicate Stored(x: Shot, d: seq<Byte>, wcnt: nat)
      requires Framed(x) && fptr <= x.objsize
      reads this, fs
    {
      && Steady() && 0 < wcnt <= |d| && At(Now(), fptr + wcnt, clust)
      && Content(Now()) == Overwrite(Content(x), fptr, d[..wcnt])
    }

    /** Writes whole sectors, up to the end of the cluster. */
    method WriteSectors(s: nat, d: seq<Byte>) returns (res: FResult, wcnt: nat)
      requires Steady() && !dirty && fptr % SS == 0 && In(Now(), fptr / SS, clust)
          && s == DataSector(fs.g, chain, fptr / SS)
      requires SS <= |d| && fptr <= objsize && fptr + |d| < 0x1_0000_0000
      modifies fs`disk, fs`writesOk, fs`faults, `objsize, `buf
      ensures res == FR_OK || res == FR_DISK_ERR
      ensures res == FR_OK ==> Stored(old(Now()), d, wcnt)
      ensures fs.faults >= old(fs.faults) && (res != FR_OK ==> fs.faults > old(fs.faults))
    {
      hide Sound, Base, Framed, At, In, FatFs.Valid, FatFs.Img, FatFs.Table, Geometry.Ok, DataSector, Content,
          GoodClusters, RunFits, Overwrite;
      SoundBase(Now());
      var csect := fptr / SS % fs.g.csize;
      var cc := |d| / SS;
      if csect + cc > fs.g.csize {
        cc := fs.g.csize - csect;
      }
      CanRun(Now(), fptr / SS, clust, cc);
      wcnt := SS * cc;
      res := DirectWrite(s, cc, d[..wcnt], fptr / SS);
    }

    /** On a sector boundary. */
    method WriteAligned(d: seq<Byte>) returns (res: FResult, wcnt: nat)
      requires Valid() && fptr % SS == 0 && |d| > 0 && fptr + |d| < 0x1_0000_0000
      modifies fs, `sclust, `clust, `chain, `dirty, `objsize, `buf, `sect
      ensures res == FR_OK || res == FR_DISK_ERR
      ensures res == FR_OK && wcnt > 0 ==> Stored(old(Now()), d, wcnt)
      ensures res == FR_OK && wcnt == 0 ==>
              Valid() && Full() && fptr == objsize && Content(Now()) == old(Content(Now()))
      ensures fs.faults >= old(fs.faults) && (res != FR_OK ==> fs.faults > old(fs.faults))
    {
      hide Sound, Base, Framed, At, In, Ready, FatFs.Valid, FatFs.Img, FatFs.Table, Geometry.Ok, DataSector, Content,
          GoodClusters, Overwrite, Full;
      SoundBase(Now());
      AtBound(Now(), fptr, clust);
      var full, s;
      wcnt := 0;
      res, full, s := LocateWrite();
      if res != FR_OK || full {
        return;
      }
      if |d| / SS > 0 {
        res, wcnt := WriteSectors(s, d);
      } else {
        res := FillBuffer(s);
        if res == FR_OK {
          wcnt := PartWrite(d);
        }
      }
    }

    /** One round of f_write: writes the front of d; nothing when the disk is full. */
    method WriteSome(d: seq<Byte>) returns (res: FResult, wcnt: nat)
      requires Valid() && |d| > 0 && fptr + |d| < 0x1_0000_0000
      modifies fs, `fptr, `sclust, `clust, `chain, `dirty, `objsize, `buf, `sect
      ensures res == FR_OK || res == FR_DISK_ERR
      ensures res == FR_OK ==>
              Valid() && wcnt <= |d| && fptr == old(fptr) + wcnt && (wcnt == 0 ==> Full() && fptr == objsize)
      ensures res == FR_OK ==> Bytes() == Overwrite(old(Bytes()), old(fptr), d[..wcnt])
      ensures fs.faults >= old(fs.faults) && (res != FR_OK ==> fs.faults > old(fs.faults))
    {
      hide Sound, Base, Framed, At, In, Ready, FatFs.Valid, FatFs.Img, FatFs.Table, Geometry.Ok, DataSector, Content,
          GoodClusters, Overwrite, Full;
      ghost var x := Now();
      SoundBase(x);
      AtBound(x, fptr, clust);
      OverwriteNothing(Content(x), fptr);
      if fptr % SS == 0 {
        res, wcnt := WriteAligned(d);
        if wcnt == 0 {
          return;
        }
      } else {
        StaysIn(x, fptr, clust);
        InFacts(x, fptr / SS, clust);
        FetchedReady(x, fptr / SS, clust);
        wcnt := PartWrite(d);
        res := FR_OK;
      }
      fptr := fptr + wcnt;
    }

    /** Between calls: sound unless a failure was recorded, which every later call only reports. */
    ghost predicate Healthy()
      reads this, fs
    {
      err == FR_OK ==> Valid()
    }

    /** f_read: the bytes at the cursor, as many as asked for and as the file has. A failure is kept in
        err; what was read before it is right too. */
    method Read(btr: nat) returns (res: FResult, data: seq<Byte>)
      requires Healthy()
      modifies fs`disk, fs`writesOk, fs`faults, fs`wflag, fs`win, fs`winsect, `fptr, `clust, `dirty, `buf, `sect, `err
      ensures Healthy()
      ensures old(err) != FR_OK ==> res == old(err) == err && data == []
      ensures old(err) == FR_OK && !canRead ==>
              res == FR_DENIED && err == FR_OK && data == [] && Valid() && Bytes() == old(Bytes()) && fptr == old(fptr)
      ensures old(err) == FR_OK && canRead ==> res == err
      ensures old(err) == FR_OK ==>
              old(fptr) + |data| <= old(objsize) && data == old(Bytes())[old(fptr)..old(fptr) + |data|]
      ensures res == FR_OK || res == FR_DISK_ERR || (old(err) != FR_OK && res == old(err))
          || (!canRead && res == FR_DENIED)
      ensures res == FR_OK ==> |data| == (if btr < objsize - old(fptr) then btr else objsize - old(fptr))
      ensures res == FR_OK ==> fptr == old(fptr) + |data|
      ensures res == FR_OK ==> Valid() && Bytes() == old(Bytes()) && fs.Table() == old(fs.Table())
      ensures fs.faults >= old(fs.faults) && (old(err) == FR_OK && res == FR_DISK_ERR ==> fs.faults > old(fs.faults))
    {
      hide Sound, At, FatFs.Valid, FatFs.Table, Content, Now;
      data := [];
      if err != FR_OK {
        return err, [];
      }
      Cursor();
      if !canRead {
        return FR_DENIED, [];
      }
      ghost var bytes, p, t := Bytes(), fptr, fs.Table();
      var todo := Min(btr, objsize - fptr);
      while |data| < todo
        invariant fs.faults >= old(fs.faults)
        invariant Valid() && err == FR_OK && fptr == p + |data| && |data| <= todo && p + todo <= |bytes|
        invariant Bytes() == bytes && fs.Table() == t && data == bytes[p..p + |data|]
        decreases todo - |data|
      {
        var more;
        res, more := ReadSome(todo - |data|);
        if res != FR_OK {
          err := res;
          return;
        }
        data := data + more;
      }
      res := FR_OK;
    }

    /** f_write: d over the bytes at the cursor, growing the file past its end; fewer bytes only when
        the disk is full or the file would pass 4 GiB - 1. */
    method Write(d: seq<Byte>) returns (res: FResult, bw: nat)
      requires Healthy() && |d| < 0x1_0000_0000
      modifies fs, `fptr, `sclust, `clust, `chain, `dirty, `objsize, `buf, `sect, `modified, `err
      ensures Healthy()
      ensures bw <= |d| && (old(err) != FR_OK ==> res == old(err) == err && bw == 0)
      ensures old(err) == FR_OK && !canWrite ==>
              res == FR_DENIED && err == FR_OK && bw == 0 && Valid() && Bytes() == old(Bytes()) && fptr == old(fptr)
      ensures old(err) == FR_OK && canWrite ==> res == err
      ensures res == FR_OK ==>
              var room := if old(fptr) + |d| < 0x1_0000_0000 then |d| else 0xFFFF_FFFF - old(fptr);
              Valid() && modified && bw <= room && (bw < room ==> Full() && fptr == |Bytes()|)
      ensures res == FR_OK || res == FR_DISK_ERR || (old(err) != FR_OK && res == old(err))
          || (!canWrite && res == FR_DENIED)
      ensures res == FR_OK ==> Overwritten(old(Bytes()), old(fptr), d[..bw], Bytes()) && fptr == old(fptr) + bw
      ensures fs.faults >= old(fs.faults) && (old(err) == FR_OK && res == FR_DISK_ERR ==> fs.faults > old(fs.faults))
    {
      hide Sound, At, FatFs.Valid, FatFs.Table, Content, Now, Full, Overwrite;
      bw := 0;
      if err != FR_OK {
        return err, 0;
      }
      Cursor();
      if !canWrite {
        return FR_DENIED, 0;
      }
      ghost var bytes, p := Bytes(), fptr;
      var btw := Room(fptr, |d|);
      OverwriteNothing(bytes, p);
      while bw < btw
        invariant fs.faults >= old(fs.faults)
        invariant Valid() && err == FR_OK && fptr == p + bw && bw <= btw <= |d| && p + btw < 0x1_0000_0000
            && p <= |bytes|
        invariant Bytes() == Overwrite(bytes, p, d[..bw])
        invariant |Bytes()| == objsize
        decreases btw - bw
      {
        var wcnt;
        res, wcnt := WriteSome(d[bw..btw]);
        if res != FR_OK {
          err := res;
          return;
        }
        OverwriteTwice(bytes, p, d[..bw], d[bw..btw][..wcnt]);
        assert d[..bw] + d[bw..btw][..wcnt] == d[..bw + wcnt];
        bw := bw + wcnt;
        if wcnt == 0 {
          break;
        }
      }
      modified := true;
      res := FR_OK;
    }

    /** f_truncate at position 0: removes the entire chain. */
    method Erase() returns (res: FResult)
      requires Valid() && fptr == 0 < objsize
      modifies fs, `sclust, `chain, `objsize
      ensures res == FR_OK || res == FR_DISK_ERR
      ensures res == FR_OK ==> Valid() && objsize == 0 && chain == []
      ensures fs.faults >= old(fs.faults) && (res != FR_OK ==> fs.faults > old(fs.faults))
    {
      hide Sound, Base, Framed, At, Kept, FatFs.Valid, FatFs.Img, FatFs.Table, Geometry.Ok, Content, GoodClusters,
          Quiet, WellFormed, CountIs, ValidRemoval, RemoveFrom, Cut, Eoc;
      ghost var x := Now();
      TableWide(x);
      Erasable(x);
      EraseWorks(x, Eoc(fs.g));
      res := RemoveChain(fs, sclust, 0);
      sclust := 0;
      chain := [];
      objsize := fptr;
      if res == FR_OK {
        fs.ValidImage();
        EraseStep(x, Now(), Eoc(fs.g));
        AtStart(Now(), clust);
      }
    }

    /** f_truncate further on: removes the clusters after the cursor's. */
    method Shorten() returns (res: FResult)
      requires Valid() && 0 < fptr < objsize
      modifies fs, `chain, `objsize
      ensures res == FR_OK || res == FR_DISK_ERR
      ensures res == FR_OK ==> Valid() && objsize == fptr && Content(Now()) == old(Content(Now()))[..fptr]
      ensures fs.faults >= old(fs.faults) && (res != FR_OK ==> fs.faults > old(fs.faults))
    {
      hide Sound, Base, Framed, At, Kept, FatFs.Valid, FatFs.Img, FatFs.Table, Geometry.Ok, Content, GoodClusters,
          Quiet, WellFormed, CountIs, ValidRemoval, RemoveFrom, Cut, Eoc, ClusterIndex;
      ghost var x := Now();
      SoundBase(x);
      TableWide(x);
      CursorCluster(x, fptr, clust);
      ShortenWorks(x, fptr, clust, Eoc(fs.g));
      var ncl := fs.GetFat(clust);
      res := FR_OK;
      if ncl == DISK_ERROR {
        res := FR_DISK_ERR;
      }
      if ncl == 1 {
        res := FR_INT_ERR;
      }
      ghost var y := Now();
      if res == FR_OK && ncl < fs.g.nFatent {
        res := RemoveChain(fs, ncl, clust);
        chain := chain[..ClusterIndex(fs.g, fptr) + 1];
        objsize := fptr;
        if res == FR_OK {
          fs.ValidImage();
          QuietTrans(fs.g, Snap(x.img, x.winsect), Snap(y.img, y.winsect), fs.Now());
          ShortenStep(x, Now(), fptr, clust, ncl, Eoc(fs.g));
        }
      } else {
        objsize := fptr;
        if res == FR_OK {
          TrimStep(x, Now(), fptr, clust);
        }
      }
    }

    /** f_truncate: the file ends at the cursor, and its chain with the cluster before it. */
    method Truncate() returns (res: FResult)
      requires Healthy()
      modifies fs, `sclust, `chain, `objsize, `dirty, `modified, `err
      ensures Healthy()
      ensures old(err) != FR_OK ==> res == old(err) == err
      ensures old(err) == FR_OK && !canWrite ==> res == FR_DENIED && err == FR_OK && Valid() && Bytes() == old(Bytes())
      ensures old(err) == FR_OK && canWrite ==> res == err
      ensures res == FR_OK || res == FR_DISK_ERR || (old(err) != FR_OK && res == old(err))
          || (!canWrite && res == FR_DENIED)
      ensures res == FR_OK ==> Valid() && fptr <= |old(Bytes())| && Bytes() == old(Bytes())[..fptr]
      ensures fs.faults >= old(fs.faults) && (old(err) == FR_OK && res == FR_DISK_ERR ==> fs.faults > old(fs.faults))
    {
      hide Sound, Base, Framed, At, Kept, FatFs.Valid, FatFs.Img, FatFs.Table, Geometry.Ok, Content, GoodClusters;
      res := err;
      if res != FR_OK {
        return;
      }
      if !canWrite {
        return FR_DENIED;
      }
      Cursor();
      if fptr < objsize {
        if fptr == 0 {
          res := Erase();
        } else {
          res := Shorten();
        }
        modified := true;
        if res == FR_OK {
          ghost var y := Now();
          res := Flush();
          if res == FR_OK {
            KeptContent(y, Now());
            AtKept(y, Now(), fptr, clust);
          }
        }
        err := res;
      }
    }

    /** Where f_lseek starts walking: the cursor's cluster when the target lies there or later, else the
        first cluster, made if the file has none. clst is 0 when that failed for lack of space. */
    method SeekOrigin(ofs: nat, ifptr: nat) returns (res: FResult, clst: nat, ghost k: nat)
      requires Steady() && At(Now(), ifptr, clust) && ofs > 0
      modifies fs, `fptr, `sclust, `clust, `chain
      ensures res == FR_OK || res == FR_DISK_ERR
      ensures res == FR_OK ==> Steady() && Content(Now()) == old(Content(Now())) && fptr < ofs
      ensures res == FR_OK && clst != 0 ==> clst == clust && Begins(Now(), k, clust) && fptr == SS * k
      ensures res == FR_OK && clst == 0 ==> fptr == 0 == objsize && Full()
      ensures fs.faults >= old(fs.faults) && (res != FR_OK ==> fs.faults > old(fs.faults))
    {
      hide Sound, Base, Framed, At, In, Kept, Begins, Precedes, Ends, Landed, FatFs.Valid, FatFs.Img, FatFs.Table,
          Geometry.Ok, Content, GoodClusters, Full, ClusterIndex, ClusterStart, SameOrLater;
      ghost var x := Now();
      SoundBase(x);
      fptr, k, res := 0, 0, FR_OK;
      if ifptr > 0 && SameOrLater(fs.g, ofs, ifptr) {
        CursorBegins(x, ifptr, clust);
        BehindCursor(x.g, ofs, ifptr);
        k := ClusterIndex(x.g, ifptr) * x.g.csize;
        fptr := ClusterStart(fs.g, ifptr);
        clst := clust;
      } else {
        clst := sclust;
        if clst == 0 {
          EmptyFile(x);
          clst := FirstCluster();
          if clst == 1 {
            res := FR_INT_ERR;
            return;
          }
          if clst == DISK_ERROR {
            res := FR_DISK_ERR;
            return;
          }
        } else {
          FirstIn(x);
        }
        KeptContentMaybe(x, Now());
        if clst != 0 {
          FirstBegins(Now(), clst);
        }
        clust := clst;
      }
    }

    /** One round of f_lseek: the cluster after clst, stretching the chain in write mode; 0 when full. */
    method SeekStep(clst: nat, ghost k: nat) returns (res: FResult, ncl: nat)
      requires Steady() && Begins(Now(), k, clst) && (canWrite || SS * (k + fs.g.csize) < objsize)
      modifies fs, `chain
      ensures res == FR_OK || res == FR_DISK_ERR
      ensures res == FR_OK ==> Steady() && Content(Now()) == old(Content(Now()))
      ensures res == FR_OK && ncl != 0 ==> Begins(Now(), k + fs.g.csize, ncl)
      ensures res == FR_OK && ncl == 0 ==> Ends(Now(), k + fs.g.csize, clst) && Full()
      ensures fs.faults >= old(fs.faults) && (res != FR_OK ==> fs.faults > old(fs.faults))
    {
      hide Sound, Base, Framed, At, In, Kept, Begins, Precedes, Ends, Landed, FatFs.Valid, FatFs.Img, FatFs.Table,
          Geometry.Ok, Content, GoodClusters, Full, Quiet;
      ghost var x := Now();
      SoundBase(x);
      BeginsPrecedes(x, k, clst);
      PrecedingCluster(x, k + x.g.csize, clst);
      res := FR_OK;
      if canWrite {
        ncl := NextCluster(clst, k + x.g.csize);
        KeptContentMaybe(x, Now());
        if ncl == 0 {
          EndsKept(x, Now(), k + x.g.csize, clst);
          return;
        }
        if ncl != DISK_ERROR {
          SoundBase(Now());
          InCluster(Now(), k + x.g.csize, ncl);
        }
      } else {
        HasCluster(x, k + x.g.csize);
        ncl := fs.GetFat(clst);
        if ncl != DISK_ERROR {
          QuietStep(x, Now());
          KeptContent(x, Now());
          InKept(x, Now(), k + x.g.csize, ncl);
          InCluster(Now(), k + x.g.csize, ncl);
        }
      }
      if ncl == DISK_ERROR {
        return FR_DISK_ERR, 0;
      }
      if ncl <= 1 || ncl >= fs.g.nFatent {
        res := FR_INT_ERR;
        return;
      }
      NowBegins(Now(), k + x.g.csize, ncl);
    }

    /** The sector to hold in the buffer at position fptr + ofs of the cluster that begins at fptr. */
    method SeekSector(ofs: nat, ghost k: nat) returns (res: FResult, nsect: nat)
      requires Steady() && Begins(Now(), k, clust) && fptr == SS * k && 0 < ofs <= SS * fs.g.csize
      ensures res == FR_OK && Landed(Now(), fptr + ofs, clust, nsect)
    {
      hide Sound, Base, Framed, At, In, Kept, Begins, Precedes, Ends, Landed, FatFs.Valid, FatFs.Img, FatFs.Table,
          Geometry.Ok, Content, GoodClusters, Full, Quiet, Clst2Sect, DataSector;
      SoundBase(Now());
      BeginsIn(Now(), k, clust);
      ClusterSector(Now(), k, clust);
      res, nsect := FR_OK, 0;
      if ofs % SS != 0 {
        nsect := Clst2Sect(fs.g, clust);
        if nsect == 0 {
          res := FR_INT_ERR;
          return;
        }
        nsect := nsect + ofs / SS;
      }
      LandsEven(Now(), k, clust, fptr + ofs, DataSector(fs.g, chain, k), nsect);
    }

    /** On the way through the chain: at sector k, the bytes unchanged. */
    ghost predicate Heading(c0: seq<Byte>, k: nat)
      reads this, fs
    {
      Steady() && Content(Now()) == c0 && Begins(Now(), k, clust)
    }

    /** The cluster following loop of f_lseek, from the cluster that begins at fptr. */
    method SeekFollow(ofs: nat, ghost k0: nat) returns (res: FResult, nsect: nat)
      requires Steady() && Begins(Now(), k0, clust) && fptr == SS * k0 && 0 < ofs && (canWrite || fptr + ofs <= objsize)
      modifies fs, `fptr, `clust, `chain
      ensures res == FR_OK || res == FR_DISK_ERR
      ensures res == FR_OK ==> Steady() && Content(Now()) == old(Content(Now())) && Landed(Now(), fptr, clust, nsect)
      ensures res == FR_OK ==> fptr == old(fptr) + ofs || (objsize <= fptr < old(fptr) + ofs && Full())
      ensures fs.faults >= old(fs.faults) && (res != FR_OK ==> fs.faults > old(fs.faults))
    {
      hide Sound, Base, Framed, At, In, Kept, Begins, Precedes, Ends, Landed, FatFs.Valid, FatFs.Img, FatFs.Table,
          Geometry.Ok, Content, GoodClusters, Full, ClusterBytes, DataSector;
      SoundBase(Now());
      ghost var c0, target := Content(Now()), fptr + ofs;
      var rest := ofs;
      ghost var k: nat := k0;
      nsect := 0;
      while rest > ClusterBytes(fs.g)
        invariant Heading(c0, k) && fs.faults >= old(fs.faults)
        invariant fptr == SS * k && 0 < rest && fptr + rest == target
      {
        SoundBase(Now());
        NextStart(Now(), k);
        rest := rest - ClusterBytes(fs.g);
        fptr := fptr + ClusterBytes(fs.g);
        var ncl;
        res, ncl := SeekStep(clust, k);
        if res != FR_OK {
          return;
        }
        k := k + fs.g.csize;
        if ncl == 0 {
          SoundBase(Now());
          LandsAtEnd(Now(), k, clust);
          EndsAtSize(Now(), k, clust);
          return;
        }
        clust := ncl;
      }
      SoundBase(Now());
      NextStart(Now(), k);
      res, nsect := SeekSector(rest, k);
      fptr := fptr + rest;
    }

    /** The walk of f_lseek; fptr is where it got to. */
    method SeekChain(ofs: nat, ifptr: nat) returns (res: FResult, nsect: nat)
      requires Steady() && At(Now(), ifptr, clust) && (canWrite || ofs <= objsize)
      modifies fs, `fptr, `sclust, `clust, `chain
      ensures res == FR_OK || res == FR_DISK_ERR
      ensures res == FR_OK ==> Steady() && Content(Now()) == old(Content(Now())) && Landed(Now(), fptr, clust, nsect)
      ensures res == FR_OK ==> fptr == ofs || (objsize <= fptr < ofs && Full())
      ensures fs.faults >= old(fs.faults) && (res != FR_OK ==> fs.faults > old(fs.faults))
    {
      hide Sound, Base, Framed, At, In, Kept, Begins, Precedes, Ends, Landed, FatFs.Valid, FatFs.Img, FatFs.Table,
          Geometry.Ok, Content, GoodClusters, Full, ClusterBytes, DataSector;
      SoundBase(Now());
      fptr, nsect, res := 0, 0, FR_OK;
      if ofs == 0 {
        LandsAtStart(Now(), clust, 0);
        return;
      }
      ghost var k;
      var clst;
      res, clst, k := SeekOrigin(ofs, ifptr);
      if res != FR_OK {
        return;
      }
      if clst == 0 {
        SoundBase(Now());
        LandsAtStart(Now(), clust, 0);
        return;
      }
      res, nsect := SeekFollow(ofs - fptr, k);
    }

    /** Brings the buffer to the cursor's sector, if the cursor is inside one. */
    method SeekBuffer(nsect: nat) returns (res: FResult)
      requires Steady() && Landed(Now(), fptr, clust, nsect) && fptr <= objsize
      modifies fs`disk, fs`writesOk, fs`faults, `dirty, `buf, `sect
      ensures res == FR_OK || res == FR_DISK_ERR
      ensures res == FR_OK ==> Valid() && Content(Now()) == old(Content(Now())) && fs.Table() == old(fs.Table())
      ensures fs.faults >= old(fs.faults) && (res != FR_OK ==> fs.faults > old(fs.faults))
    {
      hide Sound, Base, Framed, At, In, Kept, Begins, Precedes, Ends, Landed, FatFs.Valid, FatFs.Img, FatFs.Table,
          Geometry.Ok, Content, GoodClusters, Full, ClusterBytes, DataSector;
      ghost var x := Now();
      SoundBase(x);
      LandedKept(x, x, fptr, clust, nsect);
      res := FR_OK;
      if fptr % SS != 0 {
        res := Fetch(nsect, fptr / SS);
        if res != FR_OK {
          return;
        }
        KeptContent(x, Now());
        KeptLanded(x, Now(), fptr, clust, nsect);
      }
      LandedAt(Now(), fptr, clust);
    }

    /** f_lseek: moves the cursor, growing the file to it in write mode. Bytes the file had stay; the
        cursor stops short of the target only when the disk is full. */
    method LSeek(ofs: nat) returns (res: FResult)
      requires Healthy() && ofs < 0x1_0000_0000
      modifies fs, `fptr, `sclust, `clust, `chain, `objsize, `dirty, `buf, `sect, `modified, `err
      ensures Healthy()
      ensures old(err) != FR_OK ==> res == old(err) == err
      ensures old(err) == FR_OK ==> res == err
      ensures res == FR_OK ==> Valid() && objsize == Max(old(objsize), fptr) && Bytes()[..old(objsize)] == old(Bytes())
      ensures res == FR_OK ==> var target := if canWrite || ofs < old(objsize) then ofs else old(objsize);
                               fptr == target || (old(objsize) <= fptr < target && Full())
      ensures res == FR_OK || res == FR_DISK_ERR || (old(err) != FR_OK && res == old(err))
      ensures res == FR_OK && objsize != old(objsize) ==> modified
      ensures fs.faults >= old(fs.faults) && (old(err) == FR_OK && res == FR_DISK_ERR ==> fs.faults > old(fs.faults))
    {
      hide Sound, Base, Framed, At, In, Kept, Begins, Precedes, Ends, Landed, FatFs.Valid, FatFs.Img, FatFs.Table,
          Geometry.Ok, Content, GoodClusters, ClusterBytes, DataSector;
      res := err;
      if res != FR_OK {
        return;
      }
      var target := ofs;
      if ofs > objsize && !canWrite {
        target := objsize;
      }
      var nsect;
      res, nsect := SeekChain(target, fptr);
      if res == FR_OK {
        ghost var x := Now();
        Extend();
        LandedExtends(x, Now(), fptr, clust, nsect);
        res := SeekBuffer(nsect);
      }
      err := res;
    }

    /** Makes the size reach the cursor. */
    method Extend()
      modifies `objsize, `modified
      ensures objsize == Max(old(objsize), fptr) && (objsize != old(objsize) ==> modified)
    {
      if fptr > objsize {
        objsize := fptr;
        modified := true;
      }
    }
  }
}
