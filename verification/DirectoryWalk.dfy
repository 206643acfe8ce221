/** Walking a directory in Externals/FatFs/ff.c: dir_sdi goes to a byte offset of the table, dir_next to
    the entry after the current one. */
module DirectoryWalk {
  import opened Radix
  import opened FatTable
  import opened FatVolume
  import opened FatChains
  import opened FileView
  import opened FileState
  import opened Files

  const MAX_DIR: nat := 0x20_0000
  const SZDIRE: nat := 32

  datatype Outcome = Done | NoFile | IntErr | DiskErr

  /** Current cluster (0 in a static table), sector, and position of the entry in the sector. */
  datatype Place = Place(clust: nat, sect: nat, entry: nat) | Nowhere

  /** Cluster i of the chain from c on; 0 if there is none. */
  function Follow(t: Table, c: nat, i: nat): nat {
    if i == 0 then c
    else
      var d := Follow(t, c, i - 1);
      if Links(t, d) then t[d] else 0
  }

  /** Index of the entry at byte offset ofs. */
  function Index(ofs: nat): nat {
    ofs / SZDIRE
  }

  /** Its position in its sector. */
  function Spot(ofs: nat): nat {
    ofs % SS
  }

  /** Index of its cluster in the table's chain, and of its sector in the cluster. */
  function ClusterNo(g: Geometry, ofs: nat): nat
    requires g.csize > 0
  {
    ofs / SS / g.csize
  }

  function SectorNo(g: Geometry, ofs: nat): nat
    requires g.csize > 0
  {
    ofs / SS % g.csize
  }

  /** Where the entry at byte offset ofs lies, in the static root table or along a chain. */
  function Find(g: Geometry, t: Table, start: nat, dirbase: nat, nRootdir: nat, ofs: nat): Place
    requires g.csize > 0
  {
    if start == 0 then
      if Index(ofs) >= nRootdir then Nowhere else Place(0, dirbase + ofs / SS, Spot(ofs))
    else
      var c := Follow(t, start, ClusterNo(g, ofs));
      if Clst2Sect(g, c) == 0 then Nowhere else Place(c, Clst2Sect(g, c) + SectorNo(g, ofs), Spot(ofs))
  }

  /** One step on: from place p to the entry at byte offset next. */
  function Advance(g: Geometry, t: Table, start: nat, nRootdir: nat, p: Place, next: nat): Place
    requires g.csize > 0 && p.Place?
  {
    if Spot(next) != 0 then Place(p.clust, p.sect, Spot(next))
    else if start == 0 then (if Index(next) >= nRootdir then Nowhere else Place(0, p.sect + 1, 0))
    else if SectorNo(g, next) != 0 then Place(p.clust, p.sect + 1, 0)
    else if Links(t, p.clust) then Place(t[p.clust], Clst2Sect(g, t[p.clust]), 0)
    else Nowhere
  }

  /** Stepping agrees with going there directly. */
  lemma FindNext(g: Geometry, t: Table, start: nat, dirbase: nat, nRootdir: nat, ofs: nat)
    requires g.Ok() && |t| == g.nFatent && ofs % SZDIRE == 0 && nRootdir % 16 == 0
    requires Find(g, t, start, dirbase, nRootdir, ofs).Place? && start < 0x1_0000_0000
    ensures Find(g, t, start, dirbase, nRootdir, ofs + SZDIRE)
         == Advance(g, t, start, nRootdir, Find(g, t, start, dirbase, nRootdir, ofs), ofs + SZDIRE)
  {
    NextEntry(ofs);
    if start == 0 {
      if (ofs + SZDIRE) % SS != 0 {
        NextIndex(ofs, nRootdir);
      }
    } else if (ofs + SZDIRE) % SS == 0 {
      NextInChain(g, t, start, dirbase, nRootdir, ofs);
    }
  }

  /** At the end of a sector of a chain. */
  lemma NextInChain(g: Geometry, t: Table, start: nat, dirbase: nat, nRootdir: nat, ofs: nat)
    requires g.Ok() && |t| == g.nFatent && ofs % SZDIRE == 0 && start != 0 && (ofs + SZDIRE) % SS == 0
    requires Find(g, t, start, dirbase, nRootdir, ofs).Place? && start < 0x1_0000_0000
    ensures Find(g, t, start, dirbase, nRootdir, ofs + SZDIRE)
         == Advance(g, t, start, nRootdir, Find(g, t, start, dirbase, nRootdir, ofs), ofs + SZDIRE)
  {
    Positive(g);
    ClusterSectors(g, t);
    hide Geometry.Ok, Clst2Sect;
    NextEntry(ofs);
    FollowSmall(g, t, start, ClusterNo(g, ofs));
    NextSector(ofs / SS, g.csize);
    FollowStep(t, start, ClusterNo(g, ofs));
    hide Follow;
  }

  lemma NextEntry(ofs: nat)
    requires ofs % SZDIRE == 0
    ensures (ofs + SZDIRE) % SS != 0 ==> (ofs + SZDIRE) / SS == ofs / SS
    ensures (ofs + SZDIRE) % SS == 0 ==> (ofs + SZDIRE) / SS == ofs / SS + 1
  {
  }

  /** In a sector-aligned table an index can only run out at a sector boundary. */
  lemma NextIndex(ofs: nat, n: nat)
    requires ofs % SZDIRE == 0 && n % 16 == 0 && ofs / SZDIRE < n && (ofs + SZDIRE) % SS != 0
    ensures (ofs + SZDIRE) / SZDIRE < n
  {
  }

  lemma NextSector(k: nat, n: nat)
    requires n > 0
    ensures if (k + 1) % n == 0 then (k + 1) / n == k / n + 1 else (k + 1) / n == k / n && (k + 1) % n == k % n + 1
  {
    assert k == n * (k / n) + k % n;
    if k % n == n - 1 {
      QuotientIs(k + 1, n, k / n + 1, 0);
    } else {
      QuotientIs(k + 1, n, k / n, k % n + 1);
    }
  }

  /** Only clusters have sectors. */
  lemma ClusterSectors(g: Geometry, t: Table)
    requires g.Ok() && |t| == g.nFatent
    ensures forall c: nat :: c < 0x1_0000_0000 ==> (Clst2Sect(g, c) != 0 <==> IsCluster(t, c))
  {
    assert g.database > 0 && 3 <= g.nFatent <= g.MaxClusters() + 2 by {
      Layout(g);
    }
    hide g.Ok;
    forall c: nat | c < 0x1_0000_0000
      ensures Clst2Sect(g, c) != 0 <==> IsCluster(t, c)
    {
      SectorFound(g.database, g.csize, Sub32(c, 2));
    }
  }

  lemma SectorFound(base: nat, size: nat, i: nat)
    requires base > 0
    ensures base + size * i > 0
  {
  }

  lemma {:induction false} FollowSmall(g: Geometry, t: Table, c: nat, i: nat)
    requires g.Ok() && |t| == g.nFatent && c < 0x1_0000_0000
    ensures Follow(t, c, i) < 0x1_0000_0000
  {
    if i > 0 {
      FollowSmall(g, t, c, i - 1);
    }
  }

  /** A chain that has ended stays ended. */
  lemma {:induction false} FollowDead(t: Table, c: nat, i: nat, j: nat)
    requires i <= j && !Links(t, Follow(t, c, i)) && (i == j ==> Follow(t, c, i) == 0)
    ensures Follow(t, c, j) == 0
    decreases j
  {
    if i < j - 1 {
      FollowDead(t, c, i, j - 1);
    }
  }

  /** Offsets in whole clusters and the rest. */
  lemma SplitOffset(g: Geometry, ofs: nat, i: nat, rest: nat)
    requires g.csize > 0 && ofs == i * ClusterBytes(g) + rest && rest < ClusterBytes(g)
    ensures ClusterNo(g, ofs) == i && SectorNo(g, ofs) == rest / SS && Spot(ofs) == rest % SS
  {
    var n := g.csize;
    assert i * (SS * n) == SS * (n * i);
    assert rest == SS * (rest / SS) + rest % SS;
    QuotientIs(ofs, SS, n * i + rest / SS, rest % SS);
    QuotientIs(ofs / SS, n, i, rest / SS);
  }

  lemma ClustersLeft(g: Geometry, ofs: nat, i: nat, rest: nat)
    requires g.csize > 0 && ofs == i * ClusterBytes(g) + rest && rest >= ClusterBytes(g)
    ensures ClusterNo(g, ofs) > i
  {
    var n := g.csize;
    DivDiv(ofs, SS, n);
    var m := SS * n;
    var q, r := (rest - m) / m, (rest - m) % m;
    assert m * (i + 1 + q) == i * m + m + m * q;
    QuotientIs(ofs, m, i + 1 + q, r);
  }

  lemma Positive(g: Geometry)
    requires g.Ok()
    ensures g.csize > 0 && ClusterBytes(g) > 0 && 2 < g.nFatent < DISK_ERROR
  {
    SmallVolume(g);
  }

  /** How many clusters are left to follow; a step takes one off. */
  lemma OneLess(g: Geometry, i: nat, rest: nat)
    requires rest >= ClusterBytes(g)
    ensures i * ClusterBytes(g) + rest == (i + 1) * ClusterBytes(g) + (rest - ClusterBytes(g))
  {
  }

  lemma FollowStep(t: Table, c: nat, i: nat)
    ensures Follow(t, c, 0) == c && Follow(t, c, i + 1) == if Links(t, Follow(t, c, i)) then t[Follow(t, c, i)] else 0
  {
  }

  class Dir {
    const fs: FatFs
    const sclust: nat
    const dirbase: nat
    const nRootdir: nat
    var dptr: nat
    var clust: nat
    var sect: nat
    var entry: nat

    /** A directory of a mounted volume: the static root table fills whole sectors. */
    constructor (fs: FatFs, sclust: nat, dirbase: nat, nRootdir: nat)
      requires nRootdir % 16 == 0 && sclust < 0x1_0000_0000 && dirbase < 0x1_0000_0000
      ensures Rooted() && this.fs == fs && this.sclust == sclust && this.dirbase == dirbase && this.nRootdir == nRootdir
    {
      this.fs, this.sclust, this.dirbase, this.nRootdir := fs, sclust, dirbase, nRootdir;
      dptr, clust, sect, entry := 0, 0, 0, 0;
    }

    ghost predicate Rooted() {
      nRootdir % 16 == 0 && sclust < 0x1_0000_0000 && dirbase < 0x1_0000_0000
    }

    /** First cluster of the table; 0 for the static root. */
    function Start(): nat {
      if sclust == 0 && fs.g.kind == FAT32 then dirbase else sclust
    }

    /** Where the entry at ofs lies, by the table as it is. */
    ghost function Where(ofs: nat): Place
      requires fs.Valid()
      reads fs
    {
      fs.ValidImage();
      Find(fs.g, fs.Table(), Start(), dirbase, nRootdir, ofs)
    }

    /** The object stands at entry dptr. */
    ghost predicate At()
      reads this, fs
    {
      fs.Valid() && dptr % SZDIRE == 0 && dptr < MAX_DIR && sect != 0 && Where(dptr) == Place(clust, sect, entry)
    }

    /** The cluster following loop of dir_sdi. */
    method FollowTo(ofs: nat) returns (res: Outcome, clst: nat, rest: nat)
      requires fs.Valid() && Rooted()
      modifies fs`disk, fs`writesOk, fs`faults, fs`wflag, fs`win, fs`winsect
      ensures fs.Valid() && fs.Table() == old(fs.Table()) && fs.g.csize > 0
      ensures res == Done ==> clst == Follow(fs.Table(), Start(), ClusterNo(fs.g, ofs))
      ensures res == Done ==> rest / SS == SectorNo(fs.g, ofs) && rest % SS == Spot(ofs)
      ensures res == IntErr ==> Follow(fs.Table(), Start(), ClusterNo(fs.g, ofs)) == 0
      ensures res != NoFile
      ensures fs.faults >= old(fs.faults) && (res == DiskErr ==> fs.faults > old(fs.faults))
    {
      hide Follow, Find, FatFs.Valid, FatFs.Table, FatFs.Img, Geometry.Ok, ClusterBytes, Same, Quiet, ClusterNo,
          SectorNo, Spot, IsImage;
      fs.ValidImage();
      Positive(fs.g);
      ghost var t := fs.Table();
      clst, rest, res := Start(), ofs, Done;
      ghost var i: nat := 0;
      FollowStep(t, Start(), 0);
      while rest >= ClusterBytes(fs.g)
        invariant fs.Valid() && fs.Table() == t && fs.faults >= old(fs.faults)
        invariant clst == Follow(t, Start(), i) && ofs == i * ClusterBytes(fs.g) + rest
        decreases rest
      {
        ClustersLeft(fs.g, ofs, i, rest);
        OneLess(fs.g, i, rest);
        FollowStep(t, Start(), i);
        var next := fs.GetFat(clst);
        if next == DISK_ERROR {
          res := DiskErr;
          return;
        }
        if next < 2 || next >= fs.g.nFatent {
          DeadEnd(t, Start(), i, ClusterNo(fs.g, ofs));
          res := IntErr;
          return;
        }
        clst, rest, i := next, rest - ClusterBytes(fs.g), i + 1;
      }
      SplitOffset(fs.g, ofs, i, rest);
    }

    /** dir_sdi. */
    method Sdi(ofs: nat) returns (res: Outcome)
      requires fs.Valid() && Rooted()
      modifies this, fs`disk, fs`writesOk, fs`faults, fs`wflag, fs`win, fs`winsect
      ensures fs.Valid() && fs.Table() == old(fs.Table())
      ensures res == Done ==> dptr == ofs && At()
      ensures res == IntErr ==>
              ofs >= MAX_DIR || ofs % SZDIRE != 0 || Where(ofs) == Nowhere || (Start() == 0 && dirbase == 0)
      ensures res != NoFile
      ensures fs.faults >= old(fs.faults) && (res == DiskErr ==> fs.faults > old(fs.faults))
    {
      hide Follow, FatFs.Valid, FatFs.Table, FatFs.Img, Geometry.Ok, Same, Quiet, Clst2Sect, ClusterNo, SectorNo,
          IsImage;
      fs.ValidImage();
      Positive(fs.g);
      if ofs >= MAX_DIR || ofs % SZDIRE != 0 {
        return IntErr;
      }
      dptr := ofs;
      var clst := Start();
      var rest := ofs;
      if clst == 0 {
        if Index(ofs) >= nRootdir {
          return IntErr;
        }
        sect := dirbase;
      } else {
        res, clst, rest := FollowTo(ofs);
        if res != Done {
          if res == IntErr { NoSector(fs.g); }
          return;
        }
        sect := Clst2Sect(fs.g, clst);
      }
      clust := clst;
      if sect == 0 {
        return IntErr;
      }
      sect := sect + rest / SS;
      entry := rest % SS;
      res := Done;
    }

    /** dir_next without stretching the table. */
    method Next() returns (res: Outcome)
      requires Rooted() && At()
      modifies this, fs`disk, fs`writesOk, fs`faults, fs`wflag, fs`win, fs`winsect
      ensures fs.Valid() && fs.Table() == old(fs.Table())
      ensures res == Done ==> dptr == old(dptr) + SZDIRE && At()
      ensures res == NoFile ==> sect == 0 && (old(dptr) + SZDIRE >= MAX_DIR || Where(old(dptr) + SZDIRE) == Nowhere)
      ensures res == IntErr ==> IsCluster(fs.Table(), old(clust)) && fs.Table()[old(clust)] <= 1
      ensures fs.faults >= old(fs.faults) && (res == DiskErr ==> fs.faults > old(fs.faults))
    {
      hide Follow, Find, FatFs.Valid, FatFs.Table, FatFs.Img, Geometry.Ok, Same, Quiet, Clst2Sect, Spot, Index,
          SectorNo, IsImage;
      fs.ValidImage();
      Positive(fs.g);
      FindNext(fs.g, fs.Table(), Start(), dirbase, nRootdir, dptr);
      StandsOnCluster(fs.g, fs.Table(), Start(), dirbase, nRootdir, dptr);
      ghost var t := fs.Table();
      var ofs := dptr + SZDIRE;
      if ofs >= MAX_DIR {
        sect := 0;
      }
      if sect == 0 {
        return NoFile;
      }
      if Spot(ofs) == 0 {
        sect := sect + 1;
        if clust == 0 {
          if Index(ofs) >= nRootdir {
            sect := 0;
            return NoFile;
          }
        } else if SectorNo(fs.g, ofs) == 0 {
          var clst := fs.GetFat(clust);
          if clst <= 1 {
            return IntErr;
          }
          if clst == DISK_ERROR {
            return DiskErr;
          }
          if clst >= fs.g.nFatent {
            sect := 0;
            return NoFile;
          }
          clust := clst;
          sect := Clst2Sect(fs.g, clst);
          ClusterHasSector(fs.g, clst);
        }
      }
      dptr := ofs;
      entry := Spot(ofs);
      res := Done;
    }
  }

  lemma DeadEnd(t: Table, c: nat, i: nat, j: nat)
    requires i < j && !Links(t, Follow(t, c, i))
    ensures Follow(t, c, j) == 0
  {
    FollowDead(t, c, i, j);
  }

  lemma NoSector(g: Geometry)
    requires g.Ok()
    ensures Clst2Sect(g, 0) == 0
  {
  }

  lemma ClusterHasSector(g: Geometry, c: nat)
    requires g.Ok() && 2 <= c < g.nFatent
    ensures Clst2Sect(g, c) != 0
  {
  }

  /** The current cluster is 0 in the static table and a cluster otherwise. */
  lemma StandsOnCluster(g: Geometry, t: Table, start: nat, dirbase: nat, nRootdir: nat, ofs: nat)
    requires g.Ok() && |t| == g.nFatent && start < 0x1_0000_0000 && Find(g, t, start, dirbase, nRootdir, ofs).Place?
    ensures var c := Find(g, t, start, dirbase, nRootdir, ofs).clust; if start == 0 then c == 0 else IsCluster(t, c)
  {
    if start != 0 {
      FollowSmall(g, t, start, ofs / SS / g.csize);
      ClusterSectors(g, t);
    }
  }

  /** Going to the start and stepping k times leads where going to entry k leads. */
  method StepTo(d: Dir, k: nat) returns (res: Outcome)
    requires d.fs.Valid() && d.Rooted()
    modifies d, d.fs`disk, d.fs`writesOk, d.fs`faults, d.fs`wflag, d.fs`win, d.fs`winsect
    ensures d.fs.Valid() && d.fs.Table() == old(d.fs.Table())
    ensures res == Done ==> d.dptr == SZDIRE * k && Place(d.clust, d.sect, d.entry) == d.Where(SZDIRE * k)
    ensures res == NoFile ==> exists i: nat :: 0 < i <= k && EndsAt(d, i)
    ensures res == IntErr ==>
            d.Where(0) == Nowhere || (d.Start() == 0 && d.dirbase == 0) || exists i: nat :: i < k && BadAt(d, i)
    ensures d.fs.faults >= old(d.fs.faults) && (res == DiskErr ==> d.fs.faults > old(d.fs.faults))
  {
    hide FatFs.Valid, FatFs.Table, Find;
    res := d.Sdi(0);
    var i := 0;
    while res == Done && i < k
      invariant d.fs.Valid() && d.fs.Table() == old(d.fs.Table()) && i <= k
      invariant res == Done ==> d.At() && d.dptr == SZDIRE * i
      invariant res == NoFile ==> 0 < i && EndsAt(d, i)
      invariant res == IntErr ==>
                if i == 0 then d.Where(0) == Nowhere || (d.Start() == 0 && d.dirbase == 0) else BadAt(d, i - 1)
      invariant d.fs.faults >= old(d.fs.faults) && (res == DiskErr ==> d.fs.faults > old(d.fs.faults))
    {
      res := d.Next();
      i := i + 1;
    }
  }

  /** There is no i-th entry. */
  ghost predicate EndsAt(d: Dir, i: nat)
    requires d.fs.Valid()
    reads d.fs
  {
    SZDIRE * i >= MAX_DIR || d.Where(SZDIRE * i) == Nowhere
  }

  /** The i-th entry lies in a cluster that is free or marked 1. */
  ghost predicate BadAt(d: Dir, i: nat)
    requires d.fs.Valid()
    reads d.fs
  {
    var p := d.Where(SZDIRE * i);
    p.Place? && IsCluster(d.fs.Table(), p.clust) && d.fs.Table()[p.clust] <= 1
  }
}
