/** A file as its clusters show it: the data sectors behind a chain, with the one sector that may be
    held back in the file's own buffer. */
module FileView {
  import opened Radix
  import opened FatTable
  import opened FatVolume
  import opened FatChains

  /** First data sector of a cluster (clst2sect). */
  function FirstSector(g: Geometry, c: nat): nat
    requires c >= 2
  {
    g.database + g.csize * (c - 2)
  }

  predicate GoodClusters(g: Geometry, chain: seq<nat>) {
    g.Ok() && forall i :: 0 <= i < |chain| ==> 2 <= chain[i] < g.nFatent
  }

  /** The sector of the k-th 512 bytes of the file. */
  function DataSector(g: Geometry, chain: seq<nat>, k: nat): nat
    requires GoodClusters(g, chain) && k < |chain| * g.csize
  {
    InChain(|chain|, g.csize, k);
    FirstSector(g, chain[k / g.csize]) + k % g.csize
  }

  lemma InChain(n: nat, d: nat, k: nat)
    requires d > 0 && k < n * d
    ensures k / d < n
  {
    InSectors(k, d, n);
  }

  lemma SectorsInside(g: Geometry, c: nat, j: nat)
    requires g.Ok() && 2 <= c < g.nFatent && j < g.csize
    ensures g.database <= FirstSector(g, c) + j < g.nSectors
    ensures !g.InFat1(FirstSector(g, c) + j) && !g.InFat2(FirstSector(g, c) + j)
  {
    Layout(g);
    var n, d := g.csize, g.nFatent - 2 - (c - 2);
    assert g.csize * (g.nFatent - 2) == g.csize * (c - 2) + n * d;
    hide Geometry.Ok;
    MulAtLeast(n, d);
  }

  lemma DataSectorInside(g: Geometry, chain: seq<nat>, k: nat)
    requires GoodClusters(g, chain) && k < |chain| * g.csize
    ensures g.database <= DataSector(g, chain, k) < g.nSectors
    ensures !g.InFat1(DataSector(g, chain, k)) && !g.InFat2(DataSector(g, chain, k))
  {
    InChain(|chain|, g.csize, k);
    SectorsInside(g, chain[k / g.csize], k % g.csize);
  }

  /** Different clusters have different sectors. */
  lemma ClustersApart(g: Geometry, c: nat, j: nat, c': nat, j': nat)
    requires c >= 2 && c' >= 2 && j < g.csize && j' < g.csize
    ensures FirstSector(g, c) + j == FirstSector(g, c') + j' <==> c == c' && j == j'
  {
    if FirstSector(g, c) + j == FirstSector(g, c') + j' {
      SameQuotient(g.csize, c - 2, j, c' - 2, j');
    }
  }

  ghost predicate Distinct(chain: seq<nat>) {
    forall i, j :: 0 <= i < j < |chain| ==> chain[i] != chain[j]
  }

  /** The sectors of a file are all different. */
  lemma DataSectorsApart(g: Geometry, chain: seq<nat>, k: nat, k': nat)
    requires GoodClusters(g, chain) && Distinct(chain) && k < |chain| * g.csize && k' < |chain| * g.csize
    ensures DataSector(g, chain, k) == DataSector(g, chain, k') <==> k == k'
  {
    var n := g.csize;
    assert n > 0;
    hide Geometry.Ok;
    InChain(|chain|, n, k);
    InChain(|chain|, n, k');
    ClustersApart(g, chain[k / n], k % n, chain[k' / n], k' % n);
    if DataSector(g, chain, k) == DataSector(g, chain, k') {
      assert k / n == k' / n;
      assert k == n * (k / n) + k % n && k' == n * (k' / n) + k' % n;
    }
  }

  // ------------------------------------------------------------------- the view

  /** The file's sectors: those on the disk, but for the one dirty in the buffer. */
  ghost function View(g: Geometry, chain: seq<nat>, img: seq<Sector>, dirty: bool, sect: nat,
      buf: Sector): (v: seq<Sector>)
    requires GoodClusters(g, chain) && |img| == g.nSectors
    ensures |v| == |chain| * g.csize
  {
    seq(|chain| * g.csize, k requires 0 <= k < |chain| * g.csize =>
      DataSectorInside(g, chain, k);
      if dirty && DataSector(g, chain, k) == sect then buf else img[DataSector(g, chain, k)])
  }

  /** The view only looks at data sectors. */
  lemma ViewSameRest(g: Geometry, chain: seq<nat>, img: seq<Sector>, img': seq<Sector>, dirty: bool, sect: nat,
      buf: Sector)
    requires GoodClusters(g, chain) && |img| == g.nSectors && SameRest(g, img, img')
    ensures |img'| == g.nSectors && View(g, chain, img, dirty, sect, buf) == View(g, chain, img', dirty, sect, buf)
  {
    assert |img'| == g.nSectors;
    forall k | 0 <= k < |chain| * g.csize
      ensures View(g, chain, img, dirty, sect, buf)[k] == View(g, chain, img', dirty, sect, buf)[k]
    {
      DataSectorInside(g, chain, k);
    }
  }

  /** Writing the buffer back changes nothing in the view. */
  lemma ViewFlush(g: Geometry, chain: seq<nat>, img: seq<Sector>, sect: nat, buf: Sector)
    requires GoodClusters(g, chain) && |img| == g.nSectors && sect < g.nSectors
    ensures View(g, chain, img, true, sect, buf) == View(g, chain, img[sect := buf], false, sect, buf)
  {
    forall k | 0 <= k < |chain| * g.csize
      ensures View(g, chain, img, true, sect, buf)[k] == View(g, chain, img[sect := buf], false, sect, buf)[k]
    {
      DataSectorInside(g, chain, k);
    }
  }

  /** A clean buffer does not show. */
  lemma ViewClean(g: Geometry, chain: seq<nat>, img: seq<Sector>, sect: nat, buf: Sector, sect': nat, buf': Sector)
    requires GoodClusters(g, chain) && |img| == g.nSectors
    ensures View(g, chain, img, false, sect, buf) == View(g, chain, img, false, sect', buf')
  {
  }

  /** Holding a sector of the file back in the buffer: from a clean buffer, or one for the same sector. */
  lemma ViewHold(g: Geometry, chain: seq<nat>, img: seq<Sector>, k: nat, dirty: bool, sect: nat, buf: Sector,
      data: Sector)
    requires GoodClusters(g, chain) && Distinct(chain) && |img| == g.nSectors && k < |chain| * g.csize
    requires dirty ==> sect == DataSector(g, chain, k)
    ensures View(g, chain, img, true, DataSector(g, chain, k), data) == View(g, chain, img, dirty, sect, buf)[k := data]
  {
    forall j | 0 <= j < |chain| * g.csize
      ensures View(g, chain, img, true, DataSector(g, chain, k), data)[j]
          == View(g, chain, img, dirty, sect, buf)[k := data][j]
    {
      DataSectorInside(g, chain, j);
      DataSectorsApart(g, chain, j, k);
    }
  }

  /** What the buffer holds for sector k, once it is that sector's and not stale. */
  lemma ViewAt(g: Geometry, chain: seq<nat>, img: seq<Sector>, k: nat, dirty: bool, sect: nat, buf: Sector)
    requires GoodClusters(g, chain) && |img| == g.nSectors && k < |chain| * g.csize
    ensures DataSector(g, chain, k) < |img|
    ensures sect == DataSector(g, chain, k) && (dirty || img[sect] == buf) ==>
            View(g, chain, img, dirty, sect, buf)[k] == buf
    ensures !(dirty && sect == DataSector(g, chain, k))
            ==> View(g, chain, img, dirty, sect, buf)[k] == img[DataSector(g, chain, k)]
  {
    DataSectorInside(g, chain, k);
  }

  /** More clusters at the end extend the view, fewer cut it. */
  lemma ViewPrefix(g: Geometry, chain: seq<nat>, n: nat, img: seq<Sector>, dirty: bool, sect: nat, buf: Sector)
    requires GoodClusters(g, chain) && n <= |chain| && |img| == g.nSectors
    ensures GoodClusters(g, chain[..n]) && n * g.csize <= |chain| * g.csize
    ensures View(g, chain[..n], img, dirty, sect, buf) == View(g, chain, img, dirty, sect, buf)[..n * g.csize]
  {
    var m := |chain|;
    assert (m - n) * g.csize >= 0;
    assert (m - n) * g.csize == m * g.csize - n * g.csize;
    forall k | 0 <= k < n * g.csize
      ensures View(g, chain[..n], img, dirty, sect, buf)[k] == View(g, chain, img, dirty, sect, buf)[k]
    {
      InChain(n, g.csize, k);
      DataSectorInside(g, chain, k);
      DataSectorInside(g, chain[..n], k);
    }
  }
}
