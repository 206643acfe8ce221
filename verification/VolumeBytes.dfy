/** Where Externals/FatFs/ff.c keeps the bytes of files and directories: clusters as slices of the disk, laid
    end to end in the order of the chain. */
module VolumeBytes {
  import opened Radix
  import opened FatTable
  import opened FatNumber
  import opened FatVolume
  import opened FatChains
  import opened FileView
  import opened FileIO
  import opened FileState
  import opened Files
  import opened DirectoryWalk

  /** The sectors of cluster c: csize of them, cluster 2 first on the data area. */
  function ClusterAt(g: Geometry, img: seq<Sector>, c: nat): (v: seq<Sector>)
    requires IsImage(g, img) && 2 <= c < g.nFatent
    ensures |v| == g.csize
  {
    Fits(g, c);
    img[g.database + (c - 2) * g.csize..][..g.csize]
  }

  lemma Fits(g: Geometry, c: nat)
    requires g.Ok() && 2 <= c < g.nFatent
    ensures 0 <= g.database + (c - 2) * g.csize && g.database + (c - 2) * g.csize + g.csize <= g.nSectors
  {
    var left := g.nFatent - 2 - (c - 2);
    assert g.csize * (g.nFatent - 2) == (c - 2) * g.csize + g.csize * left;
    MulAtLeast(g.csize, left);
  }

  /** The clusters of a chain end to end. */
  ghost function Clusters(g: Geometry, img: seq<Sector>, chain: seq<nat>): (v: seq<Sector>)
    requires IsImage(g, img) && GoodClusters(g, chain)
    ensures |v| == |chain| * g.csize
  {
    if chain == [] then [] else
    CountSectors(|chain|, g.csize);
    ClusterAt(g, img, chain[0]) + Clusters(g, img, chain[1..])
  }

  lemma CountSectors(n: nat, d: nat)
    requires n > 0
    ensures d + (n - 1) * d == n * d
  {
  }

  lemma IndexIn(n: nat, i: nat, m: nat, j: nat)
    requires i < n && j < m
    ensures 0 <= i * m + j < n * m
    ensures i > 0 ==> m <= i * m + j && (i - 1) * m + j == i * m + j - m
  {
    assert n * m == i * m + (n - i) * m;
    MulAtLeast(m, n - i);
    if i > 0 {
      MulAtLeast(m, i);
    }
  }

  lemma ClusterAtIs(g: Geometry, img: seq<Sector>, c: nat, j: nat)
    requires IsImage(g, img) && 2 <= c < g.nFatent && j < g.csize
    ensures FirstSector(g, c) + j < |img| && ClusterAt(g, img, c)[j] == img[FirstSector(g, c) + j]
  {
    Fits(g, c);
  }

  lemma {:induction false} ClustersAt(g: Geometry, img: seq<Sector>, chain: seq<nat>, i: nat, j: nat)
    requires IsImage(g, img) && GoodClusters(g, chain) && i < |chain| && j < g.csize
    ensures i * g.csize + j < |chain| * g.csize && FirstSector(g, chain[i]) + j < |img|
    ensures Clusters(g, img, chain)[i * g.csize + j] == img[FirstSector(g, chain[i]) + j]
  {
    hide ClusterAt, FirstSector, Geometry.Ok;
    var head, tail := ClusterAt(g, img, chain[0]), Clusters(g, img, chain[1..]);
    assert Clusters(g, img, chain) == head + tail;
    hide Clusters;
    IndexIn(|chain|, i, g.csize, j);
    if i == 0 {
      ClusterAtIs(g, img, chain[0], j);
    } else {
      ClustersAt(g, img, chain[1..], i - 1, j);
    }
  }

  /** Sector k of the clusters of a chain. */
  lemma ClusterSector(g: Geometry, img: seq<Sector>, chain: seq<nat>, k: nat)
    requires IsImage(g, img) && GoodClusters(g, chain) && k < |chain| * g.csize
    ensures DataSector(g, chain, k) < |img| && Clusters(g, img, chain)[k] == img[DataSector(g, chain, k)]
  {
    hide *;
    ChainIndex(g, chain, k);
    Divides(k, g.csize);
    ClustersAt(g, img, chain, k / g.csize, k % g.csize);
  }

  lemma ChainIndex(g: Geometry, chain: seq<nat>, k: nat)
    requires GoodClusters(g, chain) && k < |chain| * g.csize
    ensures g.csize > 0 && k / g.csize < |chain|
    ensures DataSector(g, chain, k) == FirstSector(g, chain[k / g.csize]) + k % g.csize
  {
    assert g.csize > 0;
    InChain(|chain|, g.csize, k);
    hide Geometry.Ok, FirstSector;
  }

  lemma Divides(k: nat, n: nat)
    requires n > 0
    ensures k == k / n * n + k % n
  {
  }

  /** The bytes of an open file are those of its clusters, end to end in the order of the chain, its buffered
      sector written back. */
  lemma ContentOnDisk(x: Shot)
    requires Framed(x) && (x.dirty ==> x.sect < |x.img|)
    ensures var img := if x.dirty then x.img[x.sect := x.buf] else x.img;
      Content(x) == Joined(Clusters(x.g, img, x.chain))[..x.objsize]
  {
    var img := if x.dirty then x.img[x.sect := x.buf] else x.img;
    var v := Clusters(x.g, img, x.chain);
    if x.dirty {
      ViewFlush(x.g, x.chain, x.img, x.sect, x.buf);
    }
    CleanView(x.g, img, x.chain, x.sect, x.buf);
    hide View, Clusters, Geometry.Ok;
    assert Sectors(x) == v;
    hide Sectors;
    forall i | 0 <= i < x.objsize
      ensures Content(x)[i] == Joined(v)[..x.objsize][i]
    {
      JoinedAt(v, i);
    }
  }

  lemma CleanView(g: Geometry, img: seq<Sector>, chain: seq<nat>, sect: nat, buf: Sector)
    requires IsImage(g, img) && GoodClusters(g, chain)
    ensures View(g, chain, img, false, sect, buf) == Clusters(g, img, chain)
  {
    var v, w := View(g, chain, img, false, sect, buf), Clusters(g, img, chain);
    hide Clusters, DataSector, Geometry.Ok;
    forall k | 0 <= k < |chain| * g.csize
      ensures v[k] == w[k]
    {
      ClusterSector(g, img, chain, k);
    }
  }

  // ------------------------------------------------------------------ directories

  /** chain follows the links of the table. */
  ghost predicate Linked(t: Table, chain: seq<nat>) {
    && |chain| > 0 && (forall i :: 0 <= i < |chain| ==> IsCluster(t, chain[i]))
    && forall i :: 0 <= i < |chain| - 1 ==> t[chain[i]] == chain[i + 1]
  }

  lemma {:induction false} FollowIs(t: Table, chain: seq<nat>, i: nat)
    requires Linked(t, chain) && i < |chain|
    ensures Follow(t, chain[0], i) == chain[i]
  {
    if i > 0 {
      FollowIs(t, chain, i - 1);
    }
  }

  /** The entry at byte offset ofs of a directory in clusters: 32 of the bytes its clusters hold end to end. */
  lemma EntryOnDisk(g: Geometry, img: seq<Sector>, t: Table, chain: seq<nat>, dirbase: nat, nRootdir: nat, ofs: nat)
    requires IsImage(g, img) && |t| == g.nFatent && Linked(t, chain) && GoodClusters(g, chain)
    requires ofs % 32 == 0 && ofs < 512 * (|chain| * g.csize)
    ensures var p := Find(g, t, chain[0], dirbase, nRootdir, ofs);
      && p.Place? && p.sect < |img| && p.entry + 32 <= 512
      && ofs + 32 <= 512 * (|chain| * g.csize)
      && img[p.sect][p.entry..p.entry + 32] == Joined(Clusters(g, img, chain))[ofs..ofs + 32]
  {
    var k := ofs / 512;
    PlaceIs(g, t, chain, dirbase, nRootdir, ofs);
    ClusterSector(g, img, chain, k);
    hide *;
    SliceOfJoined(Clusters(g, img, chain), ofs);
  }

  lemma PlaceIs(g: Geometry, t: Table, chain: seq<nat>, dirbase: nat, nRootdir: nat, ofs: nat)
    requires GoodClusters(g, chain) && Linked(t, chain) && ofs < 512 * (|chain| * g.csize)
    ensures ofs / 512 / g.csize < |chain| && Find(g, t, chain[0], dirbase, nRootdir, ofs)
         == Place(chain[ofs / 512 / g.csize], DataSector(g, chain, ofs / 512), ofs % 512)
  {
    var k, n := ofs / 512, g.csize;
    assert n > 0;
    InChain(|chain|, n, k);
    FollowIs(t, chain, k / n);
    SectorOfCluster(g, chain, k);
    ClusterNumbers(g, ofs);
    hide Geometry.Ok, Clst2Sect, Follow, DataSector, ClusterNo, SectorNo, Spot;
  }

  lemma ClusterNumbers(g: Geometry, ofs: nat)
    requires g.csize > 0
    ensures ClusterNo(g, ofs) == ofs / 512 / g.csize && SectorNo(g, ofs) == ofs / 512 % g.csize
    ensures Spot(ofs) == ofs % 512
  {
  }

  lemma SliceOfJoined(v: seq<Sector>, ofs: nat)
    requires ofs % 32 == 0 && ofs < 512 * |v|
    ensures ofs / 512 < |v| && ofs % 512 + 32 <= 512 && ofs + 32 <= 512 * |v|
    ensures v[ofs / 512][ofs % 512..ofs % 512 + 32] == Joined(v)[ofs..ofs + 32]
  {
    EntryInSector(ofs);
    SliceFrom(v, ofs / 512, ofs % 512);
  }

  lemma EntryInSector(ofs: nat)
    requires ofs % 32 == 0
    ensures ofs % 512 + 32 <= 512 && ofs == 512 * (ofs / 512) + ofs % 512
  {
  }

  lemma {:induction false} SliceFrom(v: seq<Sector>, q: nat, r: nat)
    requires q < |v| && r + 32 <= 512
    ensures 512 * q + r + 32 <= 512 * |v| && v[q][r..r + 32] == Joined(v)[512 * q + r..512 * q + r + 32]
  {
    var head: seq<Byte>, rest: seq<Byte> := v[0], Joined(v[1..]);
    assert Joined(v) == head + rest;
    if q == 0 {
      assert (head + rest)[r..r + 32] == head[r..r + 32];
    } else {
      SliceFrom(v[1..], q - 1, r);
      var o := 512 * (q - 1) + r;
      assert (head + rest)[512 + o..512 + o + 32] == rest[o..o + 32];
    }
  }

  /** Past the clusters of a chain that ends there is no entry. */
  lemma NoEntryBehind(g: Geometry, t: Table, chain: seq<nat>, dirbase: nat, nRootdir: nat, ofs: nat)
    requires g.Ok() && |t| == g.nFatent && IsChain(t, chain) && ofs >= 512 * (|chain| * g.csize)
    ensures Find(g, t, chain[0], dirbase, nRootdir, ofs) == Nowhere
  {
    var n, m := |chain|, g.csize;
    FollowIs(t, chain, n - 1);
    FollowStep(t, chain[0], n - 1);
    assert !Links(t, chain[n - 1]);
    ClustersBehind(ofs / 512, n, m);
    FollowDead(t, chain[0], n, ClusterNo(g, ofs));
    ClusterSectors(g, t);
    hide Geometry.Ok, Follow;
  }

  lemma ClustersBehind(k: nat, n: nat, m: nat)
    requires m > 0 && k >= n * m
    ensures k / m >= n
  {
    var q := (k - n * m) / m;
    QuotientIs(k, m, n + q, (k - n * m) % m);
    assert m * (n + q) == n * m + m * q;
  }

  /** The entry at byte offset ofs of the static root directory. */
  lemma RootEntryOnDisk(g: Geometry, img: seq<Sector>, t: Table, dirbase: nat, nRootdir: nat, ofs: nat)
    requires g.csize > 0 && nRootdir % 16 == 0 && dirbase + nRootdir / 16 <= |img| && ofs % 32 == 0
    ensures var p := Find(g, t, 0, dirbase, nRootdir, ofs);
      if ofs >= 32 * nRootdir then p == Nowhere else
        p.Place? && p.sect < |img| && p.entry + 32 <= 512 && ofs + 32 <= 32 * nRootdir
        && img[p.sect][p.entry..p.entry + 32] == Joined(img[dirbase..dirbase + nRootdir / 16])[ofs..ofs + 32]
  {
    if ofs < 32 * nRootdir {
      SliceOfJoined(img[dirbase..dirbase + nRootdir / 16], ofs);
    }
  }
}
