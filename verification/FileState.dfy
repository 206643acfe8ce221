/** The state of one open file on its volume, and what the single steps of f_read, f_write, f_lseek
    and f_truncate in Externals/FatFs/ff.c do to the bytes it holds. */
module FileState {
  import opened Radix
  import opened FatTable
  import opened FatVolume
  import opened FatChains
  import opened FileView
  import opened FileIO

  /** The table, the logical disk and the window; the file's chain and the clusters it may use; its
      size, first cluster and sector buffer. */
  datatype Shot = Shot(g: Geometry, t: Table, img: seq<Sector>, winsect: nat,
                       chain: seq<nat>, ours: set<nat>, sclust: nat, objsize: nat,
                       dirty: bool, sect: nat, buf: Sector)

  ghost predicate Framed(x: Shot) {
    && GoodClusters(x.g, x.chain) && |x.img| == x.g.nSectors
    && x.objsize <= SS * (|x.chain| * x.g.csize) && x.objsize < 0x1_0000_0000
  }

  /** The file's sectors, the one held in the buffer included. */
  ghost function Sectors(x: Shot): (v: seq<Sector>)
    requires Framed(x)
    ensures |v| == |x.chain| * x.g.csize
  {
    View(x.g, x.chain, x.img, x.dirty, x.sect, x.buf)
  }

  /** The bytes of the file. */
  ghost function Content(x: Shot): (b: seq<Byte>)
    requires Framed(x)
    ensures |b| == x.objsize
  {
    Flat(Sectors(x), x.objsize)
  }

  /** What holds between all steps. */
  ghost predicate Base(x: Shot) {
    && Framed(x) && Distinct(x.chain) && |x.t| == x.g.nFatent
    && Owned(x.t, x.chain, x.sclust, x.ours) && Clear(x.g, x.ours, x.winsect)
    && (x.sect != 0 ==> InOurs(x.g, x.ours, x.sect)) && (x.dirty ==> x.sect != 0)
  }

  /** A clean buffer holds what the disk holds. */
  ghost predicate Sound(x: Shot) {
    Base(x) && (!x.dirty && x.sect != 0 ==> x.sect < |x.img| && x.img[x.sect] == x.buf)
  }

  /** The buffer stands for sector k, right at least where the file has bytes. */
  ghost predicate Ready(x: Shot, k: nat) {
    && Base(x) && k < |x.chain| * x.g.csize && x.sect == DataSector(x.g, x.chain, k)
    && forall j :: 0 <= j < SS && SS * k + j < x.objsize ==> x.buf[j] == Sectors(x)[k][j]
  }

  // ----------------------------------------------------------------- the cursor

  /** Index in the chain of the cluster that holds the byte before p. */
  function ClusterIndex(g: Geometry, p: nat): nat
    requires p > 0 && g.csize > 0
  {
    (p - 1) / (SS * g.csize)
  }

  /** The key invariant of the cursor: clust is the cluster of the byte before it, and inside a sector
      the buffer stands for that sector. */
  ghost predicate At(x: Shot, p: nat, clust: nat)
    requires Framed(x)
  {
    && p <= x.objsize
    && (p > 0 ==> ClusterIndex(x.g, p) < |x.chain| && clust == x.chain[ClusterIndex(x.g, p)])
    && (p % SS != 0 ==> p / SS < |x.chain| * x.g.csize && x.sect == DataSector(x.g, x.chain, p / SS))
  }

  /** A position inside, or at the end of, the cluster of sector k. */
  lemma Lands(g: Geometry, k: nat, p: nat)
    requires g.csize > 0 && SS * (k - k % g.csize) < p <= SS * (k - k % g.csize + g.csize)
    ensures ClusterIndex(g, p) == k / g.csize
  {
    var n, q := g.csize, k / g.csize;
    assert k - k % n == n * q;
    assert SS * (n * q) == (SS * n) * q;
    QuotientIs(p - 1, SS * n, q, p - 1 - (SS * n) * q);
  }

  /** Inside a cluster the cursor's cluster is the one of its next byte too. */
  lemma Inside(g: Geometry, p: nat)
    requires g.csize > 0 && (p % SS != 0 || p / SS % g.csize != 0)
    ensures p > 0 && ClusterIndex(g, p) == p / SS / g.csize
  {
    var k := p / SS;
    assert p == SS * k + p % SS;
    Lands(g, k, p);
  }

  /** On a cluster boundary it is the one before. */
  lemma Boundary(g: Geometry, p: nat)
    requires g.csize > 0 && p > 0 && p % SS == 0 && p / SS % g.csize == 0
    ensures ClusterIndex(g, p) + 1 == p / SS / g.csize
  {
    var n, k := g.csize, p / SS;
    var q := k / n;
    assert k == n * q;
    assert q >= 1;
    assert (SS * n) * (q - 1) == (SS * n) * q - SS * n == p - SS * n by {
      assert SS * (n * q) == (SS * n) * q;
    }
    QuotientIs(p - 1, SS * n, q - 1, SS * n - 1);
  }

  /** clust is the cluster of sector k of the file. */
  ghost predicate In(x: Shot, k: nat, clust: nat)
    requires Framed(x)
  {
    k < |x.chain| * x.g.csize && k / x.g.csize < |x.chain| && clust == x.chain[k / x.g.csize]
  }

  lemma InFacts(x: Shot, k: nat, clust: nat)
    requires Framed(x) && In(x, k, clust)
    ensures GoodClusters(x.g, x.chain) && k < |x.chain| * x.g.csize
  {
  }

  /** The table leads from the cursor's cluster to the cluster of the next byte. */
  lemma LeadsOn(x: Shot, p: nat, clust: nat)
    requires Base(x) && At(x, p, clust) && p < x.objsize && p % SS == 0 && p / SS % x.g.csize == 0
    ensures var i := p / SS / x.g.csize;
            && i < |x.chain| && IsCluster(x.t, x.chain[i]) && x.g.nFatent < DISK_ERROR && In(x, p / SS, x.chain[i])
            && if p == 0 then x.chain[i] == x.sclust else IsCluster(x.t, clust) && x.t[clust] == x.chain[i]
  {
    SmallVolume(x.g);
    HasCluster(x, p / SS);
    InChain(|x.chain|, x.g.csize, p / SS);
    ChainEntry(x, p / SS / x.g.csize);
    FirstOfChain(x);
    hide Base, GoodClusters, Geometry.Ok;
    if p > 0 {
      Boundary(x.g, p);
      ChainEntry(x, ClusterIndex(x.g, p));
    }
  }

  lemma FirstOfChain(x: Shot)
    requires Base(x)
    ensures x.chain != [] ==> x.chain[0] == x.sclust
    ensures x.g.csize > 0 && Framed(x)
  {
  }

  /** Inside a cluster the cursor is already in the right one. */
  lemma StaysIn(x: Shot, p: nat, clust: nat)
    requires Framed(x) && At(x, p, clust) && (p % SS != 0 || p / SS % x.g.csize != 0)
    ensures In(x, p / SS, clust) && (p % SS != 0 ==> x.sect == DataSector(x.g, x.chain, p / SS))
  {
    Inside(x.g, p);
    var n, q := x.g.csize, p / SS / x.g.csize;
    SectorAt(|x.chain|, n, q, p / SS % n);
  }

  /** The cursor after moving inside the cluster of sector k. */
  lemma MovesIn(x: Shot, k: nat, clust: nat, p: nat)
    requires Framed(x) && In(x, k, clust) && p <= x.objsize
    requires SS * (k - k % x.g.csize) < p <= SS * (k - k % x.g.csize + x.g.csize)
    requires p % SS != 0 ==> p / SS == k && x.sect == DataSector(x.g, x.chain, k)
    ensures At(x, p, clust)
  {
    Lands(x.g, k, p);
  }

  /** On a cluster boundary the cursor's cluster leads on, or it is the last of the chain. */
  lemma LeadsOnOrEnds(x: Shot, p: nat, clust: nat)
    requires Base(x) && At(x, p, clust) && p > 0 && p % SS == 0 && p / SS % x.g.csize == 0
    ensures Precedes(x, p / SS, clust)
  {
    Boundary(x.g, p);
    var j := ClusterIndex(x.g, p);
    assert x.chain[j] in x.chain;
    if j < |x.chain| - 1 {
      assert x.t[x.chain[j]] == x.chain[j + 1];
      var n := x.g.csize;
      SectorAt(|x.chain|, n, j + 1, 0);
    }
  }

  /** Sector k comes right after the chain, whose last cluster is clust. */
  ghost predicate Ends(x: Shot, k: nat, clust: nat)
    requires Framed(x)
  {
    x.chain != [] && clust == x.chain[|x.chain| - 1] && k == x.g.csize * |x.chain|
  }

  /** Sector k begins the cluster after clust, in the chain or yet to be added to it. */
  ghost predicate Precedes(x: Shot, k: nat, clust: nat)
    requires Framed(x)
  {
    && IsCluster(x.t, clust) && x.t[clust] != 0
    && (Links(x.t, clust) ==> In(x, k, x.t[clust]))
    && (!Links(x.t, clust) ==> Ends(x, k, clust) && x.t[clust] >= |x.t|)
  }

  lemma FirstIn(x: Shot)
    requires Base(x) && x.sclust != 0
    ensures In(x, 0, x.sclust)
  {
    SectorAt(|x.chain|, x.g.csize, 0, 0);
  }

  /** Sector k + i of the same cluster lies i sectors further. */
  lemma SectorRun(g: Geometry, chain: seq<nat>, k: nat, i: nat)
    requires GoodClusters(g, chain) && k < |chain| * g.csize && k % g.csize + i < g.csize
    ensures k + i < |chain| * g.csize
    ensures DataSector(g, chain, k + i) == DataSector(g, chain, k) + i
  {
    var n, q, r := g.csize, k / g.csize, k % g.csize;
    InChain(|chain|, n, k);
    assert k == n * q + r;
    QuotientIs(k + i, n, q, r + i);
    SectorAt(|chain|, n, q, r + i);
    hide Geometry.Ok;
  }

  lemma SectorAt(m: nat, n: nat, q: nat, r: nat)
    requires q < m && r < n
    ensures n * q + r < m * n
  {
    MulAtLeast(n, m - q);
    assert n * (m - q) == m * n - n * q;
  }

  // ------------------------------------------------------------------- single steps

  /** Steps that leave the file's sectors as they are. */
  ghost predicate Kept(x: Shot, y: Shot) {
    && Framed(x) && Framed(y) && y.g == x.g && y.chain == x.chain && y.sclust == x.sclust
    && y.ours == x.ours && y.objsize == x.objsize && Sectors(y) == Sectors(x)
  }

  lemma KeptContent(x: Shot, y: Shot)
    requires Kept(x, y)
    ensures Content(y) == Content(x)
  {
  }

  lemma SoundBase(x: Shot)
    requires Sound(x)
    ensures Base(x) && Framed(x) && x.g.csize > 0
  {
  }

  lemma KeptRefl(x: Shot)
    requires Sound(x)
    ensures Kept(x, x)
  {
  }

  lemma KeptTrans(x: Shot, y: Shot, z: Shot)
    requires Kept(x, y) && Kept(y, z)
    ensures Kept(x, z)
  {
  }

  lemma InKept(x: Shot, y: Shot, k: nat, clust: nat)
    requires Kept(x, y) && In(x, k, clust)
    ensures In(y, k, clust)
  {
  }

  /** Looking at the FAT, or changing it elsewhere than in this chain. */
  lemma QuietStep(x: Shot, y: Shot)
    requires Sound(x) && Quiet(x.g, Snap(x.img, x.winsect), Snap(y.img, y.winsect))
    requires y == x.(t := y.t, img := y.img, winsect := y.winsect) && y.t == x.t
    ensures Sound(y) && Kept(x, y)
  {
    ClearStays(x.g, x.ours, Snap(x.img, x.winsect), Snap(y.img, y.winsect));
    ViewSameRest(x.g, x.chain, x.img, y.img, x.dirty, x.sect, x.buf);
    if x.sect != 0 {
      OursInside(x.g, x.ours, x.sect);
    }
    hide WellFormed, Geometry.Ok, View, IsChain, NoPredecessor, Distinct;
  }

  /** The table grew a chain of one cluster more. */
  lemma GrowStep(x: Shot, y: Shot, ncl: nat)
    requires Sound(x) && Quiet(x.g, Snap(x.img, x.winsect), Snap(y.img, y.winsect))
    requires |y.t| == |x.t| && Owned(y.t, y.chain, y.sclust, x.ours) && y.chain == x.chain + [ncl]
    requires y == x.(t := y.t, img := y.img, winsect := y.winsect, chain := y.chain, sclust := y.sclust)
    ensures Sound(y) && Content(y) == Content(x)
  {
    OwnedDistinct(y.t, y.chain, y.sclust, x.ours);
    OwnedGood(x.g, y.t, y.chain, y.sclust, x.ours);
    ClearStays(x.g, x.ours, Snap(x.img, x.winsect), Snap(y.img, y.winsect));
    if x.sect != 0 {
      OwnedGood(x.g, x.t, x.chain, x.sclust, x.ours);
      OursInside(x.g, x.ours, x.sect);
    }
    Longer(|x.chain|, x.g.csize);
    hide Owned, Distinct, InOurs, Clear, Geometry.Ok, GoodClusters;
    LongerView(x, y, ncl);
  }

  lemma OwnedGood(g: Geometry, t: Table, chain: seq<nat>, sclust: nat, ours: set<nat>)
    requires Owned(t, chain, sclust, ours) && g.Ok() && |t| == g.nFatent
    ensures GoodClusters(g, chain) && forall c :: c in ours ==> 2 <= c < g.nFatent
  {
    assert forall i :: 0 <= i < |chain| ==> chain[i] in chain;
    hide WellFormed, IsChain, NoPredecessor;
  }

  lemma LongerView(x: Shot, y: Shot, ncl: nat)
    requires Framed(x) && Framed(y) && SameRest(x.g, x.img, y.img) && y.chain == x.chain + [ncl]
    requires (y.g, y.objsize, y.dirty, y.sect, y.buf) == (x.g, x.objsize, x.dirty, x.sect, x.buf)
    ensures Content(y) == Content(x)
  {
    ViewSameRest(x.g, x.chain, x.img, y.img, x.dirty, x.sect, x.buf);
    assert y.chain[..|x.chain|] == x.chain;
    ViewPrefix(x.g, y.chain, |x.chain|, y.img, x.dirty, x.sect, x.buf);
    hide Geometry.Ok, View;
    FlatPrefix(Sectors(x), Sectors(y), x.objsize);
  }

  lemma Longer(m: nat, n: nat)
    ensures m * n <= (m + 1) * n
  {
  }

  lemma FlatPrefix(v: seq<Sector>, w: seq<Sector>, n: nat)
    requires n <= SS * |v| && v <= w
    ensures Flat(w, n) == Flat(v, n)
  {
  }

  /** A file without clusters gets its first one. */
  lemma FirstStep(x: Shot, y: Shot, ncl: nat, eoc: nat)
    requires Sound(x) && x.sclust == 0 && Quiet(x.g, Snap(x.img, x.winsect), Snap(y.img, y.winsect))
    requires IsCluster(x.t, ncl) && x.t[ncl] == 0 && eoc >= |x.t| && y.t == Stretched(x.t, 0, ncl, eoc)
    requires y == x.(t := y.t, img := y.img, winsect := y.winsect, chain := [ncl], sclust := ncl)
    ensures Sound(y) && Content(y) == Content(x) && In(y, 0, ncl)
  {
    assert x.chain == [] && y.chain == x.chain + [ncl];
    OwnedFirst(x.t, x.sclust, x.ours, ncl, eoc);
    GrowStep(x, y, ncl);
    FirstIn(y);
  }

  /** The chain gets one more cluster at its end. */
  lemma StretchStep(x: Shot, y: Shot, k: nat, clust: nat, ncl: nat, eoc: nat)
    requires Sound(x) && Ends(x, k, clust) && Quiet(x.g, Snap(x.img, x.winsect), Snap(y.img, y.winsect))
    requires IsCluster(x.t, ncl) && x.t[ncl] == 0 && eoc >= |x.t| && y.t == Stretched(x.t, clust, ncl, eoc)
    requires y == x.(t := y.t, img := y.img, winsect := y.winsect, chain := x.chain + [ncl])
    ensures Sound(y) && Content(y) == Content(x) && In(y, k, ncl)
  {
    OwnedGrows(x.t, x.chain, x.sclust, x.ours, ncl, eoc);
    GrowStep(x, y, ncl);
    hide Owned, Distinct, Clear, InOurs, Content, GoodClusters;
    var n, m := x.g.csize, |x.chain|;
    QuotientIs(k, n, m, 0);
    SectorAt(m + 1, n, m, 0);
  }

  /** Writing the dirty buffer back. */
  lemma FlushStep(x: Shot, y: Shot)
    requires Sound(x) && x.dirty && x.sect < |x.img| && y == x.(dirty := false, img := x.img[x.sect := x.buf])
    ensures Sound(y) && Kept(x, y)
  {
    ViewFlush(x.g, x.chain, x.img, x.sect, x.buf);
    hide WellFormed, IsChain, NoPredecessor, Distinct, View, InOurs, Clear;
  }

  /** Loading a sector of the file into the clean buffer. */
  lemma LoadStep(x: Shot, y: Shot, k: nat)
    requires Sound(x) && !x.dirty && k < |x.chain| * x.g.csize
    requires DataSector(x.g, x.chain, k) < |x.img|
    requires y == x.(sect := DataSector(x.g, x.chain, k), buf := x.img[DataSector(x.g, x.chain, k)])
    ensures Sound(y) && Kept(x, y)
  {
    DataSectorOurs(x.g, x.chain, x.ours, k);
    ViewClean(x.g, x.chain, x.img, x.sect, x.buf, y.sect, y.buf);
    hide WellFormed, IsChain, NoPredecessor, Distinct, View, InOurs, Clear, Geometry.Ok;
  }

  /** A sound buffer for sector k is ready. */
  lemma SoundReady(x: Shot, k: nat)
    requires Sound(x) && k < |x.chain| * x.g.csize && x.sect == DataSector(x.g, x.chain, k)
    ensures Ready(x, k) && Sectors(x)[k] == x.buf
  {
    DataSectorOurs(x.g, x.chain, x.ours, k);
    ViewAt(x.g, x.chain, x.img, k, x.dirty, x.sect, x.buf);
    hide WellFormed, IsChain, NoPredecessor, Distinct, View, InOurs, Clear, Geometry.Ok;
  }

  /** A clean buffer can be made over, unread, to a sector past the end of the file. */
  lemma FreshReady(x: Shot, y: Shot, k: nat)
    requires Sound(x) && !x.dirty && k < |x.chain| * x.g.csize && SS * k >= x.objsize
    requires y == x.(sect := DataSector(x.g, x.chain, k))
    ensures Ready(y, k) && Kept(x, y)
  {
    DataSectorOurs(x.g, x.chain, x.ours, k);
    ViewClean(x.g, x.chain, x.img, x.sect, x.buf, y.sect, y.buf);
    hide WellFormed, IsChain, NoPredecessor, Distinct, View, InOurs, Clear, Geometry.Ok;
  }

  function Max(a: nat, b: nat): nat {
    if a > b then a else b
  }

  /** Putting d into the buffer at offset o of sector k. */
  lemma PatchStep(x: Shot, y: Shot, k: nat, o: nat, d: seq<Byte>)
    requires Ready(x, k) && o + |d| <= SS && |d| > 0 && SS * k + o <= x.objsize
    requires SS * k + o + |d| < 0x1_0000_0000
    requires forall j :: 0 <= j < SS ==> y.buf[j] == if o <= j < o + |d| then d[j - o] else x.buf[j]
    requires y == x.(dirty := true, buf := y.buf, objsize := Max(x.objsize, SS * k + o + |d|))
    ensures Sound(y) && Content(y) == Overwrite(Content(x), SS * k + o, d)
  {
    DataSectorOurs(x.g, x.chain, x.ours, k);
    ViewHold(x.g, x.chain, x.img, k, x.dirty, x.sect, x.buf, y.buf);
    hide WellFormed, IsChain, NoPredecessor, Distinct, View, InOurs, Clear, Geometry.Ok;
    assert Framed(y);
    assert Sectors(y) == Sectors(x)[k := y.buf];
    FlatPart(Sectors(x), x.objsize, k, o, d, y.buf);
  }

  /** A file just opened. */
  lemma OpenStep(x: Shot, clust: nat)
    requires Framed(x) && |x.t| == x.g.nFatent && Owned(x.t, x.chain, x.sclust, x.ours) && Clear(x.g, x.ours, x.winsect)
    requires !x.dirty && x.sect == 0
    ensures Sound(x) && At(x, 0, clust)
  {
    OwnedDistinct(x.t, x.chain, x.sclust, x.ours);
  }

  /** Cutting the file at p, its chain at n clusters. */
  lemma CutStep(x: Shot, y: Shot, n: nat, p: nat)
    requires Sound(x) && Quiet(x.g, Snap(x.img, x.winsect), Snap(y.img, y.winsect))
    requires n <= |x.chain| && p <= x.objsize && p <= SS * (n * x.g.csize)
    requires |y.t| == |x.t| && Owned(y.t, x.chain[..n], y.sclust, x.ours)
    requires y == x.(t := y.t, img := y.img, winsect := y.winsect, chain := x.chain[..n], sclust := y.sclust,
        objsize := p)
    ensures Sound(y) && Content(y) == Content(x)[..p]
  {
    OwnedDistinct(y.t, y.chain, y.sclust, x.ours);
    OwnedGood(x.g, y.t, y.chain, y.sclust, x.ours);
    ClearStays(x.g, x.ours, Snap(x.img, x.winsect), Snap(y.img, y.winsect));
    if x.sect != 0 {
      OwnedGood(x.g, x.t, x.chain, x.sclust, x.ours);
      OursInside(x.g, x.ours, x.sect);
    }
    hide Owned, Distinct, InOurs, Clear, Geometry.Ok, GoodClusters;
    CutView(x, y, n, p);
  }

  lemma CutView(x: Shot, y: Shot, n: nat, p: nat)
    requires Framed(x) && Framed(y) && SameRest(x.g, x.img, y.img) && n <= |x.chain| && y.chain == x.chain[..n]
    requires (y.g, y.dirty, y.sect, y.buf) == (x.g, x.dirty, x.sect, x.buf) && y.objsize == p <= x.objsize
    ensures Content(y) == Content(x)[..p]
  {
    ViewSameRest(x.g, x.chain, x.img, y.img, x.dirty, x.sect, x.buf);
    ViewPrefix(x.g, x.chain, n, y.img, x.dirty, x.sect, x.buf);
    hide Geometry.Ok, View;
    assert forall i :: 0 <= i < p ==> Content(y)[i] == Content(x)[i];
  }

  /** Enlarging the file inside its clusters; the new bytes are whatever the sectors hold. */
  lemma ExtendStep(x: Shot, y: Shot, p: nat)
    requires Sound(x) && x.objsize <= p <= SS * (|x.chain| * x.g.csize) && p < 0x1_0000_0000
    requires y == x.(objsize := p)
    ensures Sound(y) && Content(y)[..x.objsize] == Content(x)
  {
    hide View, Owned, Distinct, InOurs, Clear, GoodClusters;
    assert Sectors(y) == Sectors(x);
    assert forall i :: 0 <= i < x.objsize ==> Content(y)[i] == Content(x)[i];
  }

  // ------------------------------------------------------- transfers of whole sectors

  /** Whole sectors of bytes. */
  function Cells(d: seq<Byte>, n: nat): (c: seq<Sector>)
    requires |d| == SS * n
    ensures |c| == n
  {
    seq(n, i requires 0 <= i < n => d[SS * i..SS * i + SS])
  }

  /** img with the sectors from s on replaced by c. */
  function Splice(img: seq<Sector>, s: nat, c: seq<Sector>): (r: seq<Sector>)
    requires s + |c| <= |img|
    ensures |r| == |img|
    ensures forall i :: 0 <= i < |img| ==> r[i] == if s <= i < s + |c| then c[i - s] else img[i]
  {
    img[..s] + c + img[s + |c|..]
  }

  /** A data sector of ours that is not in the window. */
  ghost predicate Usable(x: Shot, s: nat)
    requires x.g.csize > 0
  {
    InOurs(x.g, x.ours, s) && 0 < s < x.g.nSectors && !x.g.InFat1(s) && !x.g.InFat2(s) && s != x.winsect
  }

  lemma OneOfRun(x: Shot, k: nat, i: nat)
    requires Base(x) && k < |x.chain| * x.g.csize && k % x.g.csize + i < x.g.csize
    ensures Usable(x, DataSector(x.g, x.chain, k) + i)
  {
    SectorRun(x.g, x.chain, k, i);
    DataSectorInside(x.g, x.chain, k + i);
    DataSectorOurs(x.g, x.chain, x.ours, k + i);
    Layout(x.g);
    hide WellFormed, IsChain, NoPredecessor, Distinct, InOurs, Geometry.Ok, DataSector;
  }

  /** The sectors of a run inside one cluster are ours and on the disk. */
  lemma RunInside(x: Shot, k: nat, n: nat)
    requires Base(x) && k < |x.chain| * x.g.csize && 0 < n && k % x.g.csize + n <= x.g.csize
    ensures k + n <= |x.chain| * x.g.csize && DataSector(x.g, x.chain, k) + n <= x.g.nSectors
    ensures forall s :: DataSector(x.g, x.chain, k) <= s < DataSector(x.g, x.chain, k) + n ==> Usable(x, s)
  {
    var f := DataSector(x.g, x.chain, k);
    SectorRun(x.g, x.chain, k, n - 1);
    OneOfRun(x, k, n - 1);
    assert f + n - 1 < x.g.nSectors;
    hide Owned, Distinct, Clear, InOurs, Geometry.Ok, DataSector, Usable;
    forall s | f <= s < f + n
      ensures Usable(x, s)
    {
      OneOfRun(x, k, s - f);
    }
  }

  /** The view after a run of sectors is stored. */
  lemma ViewRun(x: Shot, k: nat, c: seq<Sector>, buf: Sector)
    requires Base(x) && !x.dirty && k < |x.chain| * x.g.csize && 0 < |c| && k % x.g.csize + |c| <= x.g.csize
    ensures k + |c| <= |x.chain| * x.g.csize && DataSector(x.g, x.chain, k) + |c| <= |x.img|
    ensures View(x.g, x.chain, Splice(x.img, DataSector(x.g, x.chain, k), c), false, x.sect, buf)
         == Splice(Sectors(x), k, c)
  {
    var g, ch, f := x.g, x.chain, DataSector(x.g, x.chain, k);
    RunInside(x, k, |c|);
    var v := View(g, ch, Splice(x.img, f, c), false, x.sect, buf);
    forall j | 0 <= j < |ch| * g.csize
      ensures v[j] == Splice(Sectors(x), k, c)[j]
    {
      InRun(x, k, |c|, j);
      DataSectorInside(g, ch, j);
    }
  }

  lemma BaseFacts(x: Shot)
    requires Base(x)
    ensures GoodClusters(x.g, x.chain) && Distinct(x.chain) && x.g.csize > 0
  {
  }

  lemma InRun(x: Shot, k: nat, n: nat, j: nat)
    requires Base(x) && k < |x.chain| * x.g.csize && 0 < n && k % x.g.csize + n <= x.g.csize
    requires j < |x.chain| * x.g.csize
    ensures var f := DataSector(x.g, x.chain, k); var s := DataSector(x.g, x.chain, j);
            (f <= s < f + n <==> k <= j < k + n) && (k <= j < k + n ==> s - f == j - k)
  {
    BaseFacts(x);
    hide Base, DataSector, GoodClusters, Distinct;
    var f, s := DataSector(x.g, x.chain, k), DataSector(x.g, x.chain, j);
    if k <= j < k + n {
      SectorRun(x.g, x.chain, k, j - k);
    }
    if f <= s < f + n {
      SectorBack(x.g, x.chain, k, s - f, j);
    }
  }

  /** The sector i behind that of k is that of k + i and no other. */
  lemma SectorBack(g: Geometry, chain: seq<nat>, k: nat, i: nat, j: nat)
    requires GoodClusters(g, chain) && Distinct(chain) && k < |chain| * g.csize && k % g.csize + i < g.csize
    requires j < |chain| * g.csize && DataSector(g, chain, j) == DataSector(g, chain, k) + i
    ensures j == k + i
  {
    SectorRun(g, chain, k, i);
    hide DataSector, GoodClusters, Distinct;
    DataSectorsApart(g, chain, j, k + i);
  }

  lemma FlatRun(v: seq<Sector>, n: nat, k: nat, c: seq<Sector>, d: seq<Byte>)
    requires n <= SS * |v| && k + |c| <= |v| && |d| == SS * |c| && c == Cells(d, |c|) && SS * k <= n
    ensures Flat(Splice(v, k, c), Max(n, SS * k + |d|)) == Overwrite(Flat(v, n), SS * k, d)
  {
    var w := Splice(v, k, c);
    forall i | SS * k <= i < SS * k + |d|
      ensures w[i / SS][i % SS] == d[i - SS * k]
    {
      var q, r := i / SS, i % SS;
      assert i == SS * q + r && k <= q < k + |c|;
      assert c[q - k] == d[SS * (q - k)..SS * (q - k) + SS];
    }
    FlatOverwrite(v, w, n, SS * k, d);
  }

  /** Storing whole sectors past the buffer, and refilling the buffer when it is one of them. */
  lemma RunStep(x: Shot, y: Shot, k: nat, n: nat, d: seq<Byte>)
    requires Sound(x) && !x.dirty && k < |x.chain| * x.g.csize && 0 < n && k % x.g.csize + n <= x.g.csize
    requires |d| == SS * n && SS * k <= x.objsize && SS * k + |d| < 0x1_0000_0000
    requires DataSector(x.g, x.chain, k) + n <= |x.img|
    requires var f := DataSector(x.g, x.chain, k);
             y == x.(img := Splice(x.img, f, Cells(d, n)), objsize := Max(x.objsize, SS * k + |d|),
                     buf := if f <= x.sect < f + n then Cells(d, n)[x.sect - f] else x.buf)
    ensures Sound(y) && Content(y) == Overwrite(Content(x), SS * k, d)
  {
    ViewRun(x, k, Cells(d, n), y.buf);
    hide WellFormed, IsChain, NoPredecessor, Distinct, View, InOurs, Clear, Geometry.Ok;
    assert Framed(y);
    FlatRun(Sectors(x), x.objsize, k, Cells(d, n), d);
  }

  lemma ContentAt(x: Shot, k: nat, j: nat)
    requires Framed(x) && j < SS && SS * k + j < x.objsize
    ensures k < |x.chain| * x.g.csize && Content(x)[SS * k + j] == Sectors(x)[k][j]
  {
    InSector(SS * k + j, k, j);
  }

  /** Reading from the buffer. */
  lemma BufferRead(x: Shot, k: nat, o: nat, n: nat)
    requires Sound(x) && k < |x.chain| * x.g.csize && x.sect == DataSector(x.g, x.chain, k)
    requires o + n <= SS && SS * k + o + n <= x.objsize
    ensures x.buf[o..o + n] == Content(x)[SS * k + o..SS * k + o + n]
  {
    SoundReady(x, k);
    hide Owned, Distinct, Clear, View, Content, GoodClusters, InOurs;
    var a, b := x.buf[o..o + n], Content(x)[SS * k + o..SS * k + o + n];
    forall i | 0 <= i < n
      ensures a[i] == b[i]
    {
      ContentAt(x, k, o + i);
    }
  }

  /** Sector q of the run from sector k as a direct read hands it over. */
  ghost function Fetched(x: Shot, k: nat, q: nat): Sector
    requires Framed(x) && k < |x.chain| * x.g.csize && DataSector(x.g, x.chain, k) + q < |x.img|
  {
    var s := DataSector(x.g, x.chain, k) + q;
    if x.dirty && x.sect == s then x.buf else x.img[s]
  }

  lemma FetchedIs(x: Shot, k: nat, q: nat)
    requires Sound(x) && k < |x.chain| * x.g.csize && k % x.g.csize + q < x.g.csize
    ensures DataSector(x.g, x.chain, k) + q < |x.img| && k + q < |x.chain| * x.g.csize
    ensures Fetched(x, k, q) == Sectors(x)[k + q]
  {
    hide Owned, Distinct, Clear, InOurs, View, DataSector, Geometry.Ok;
    SectorRun(x.g, x.chain, k, q);
    ViewAt(x.g, x.chain, x.img, k + q, x.dirty, x.sect, x.buf);
  }

  /** Reading whole sectors past the buffer, one of them replaced when the buffer holds it dirty. */
  lemma RunRead(x: Shot, k: nat, n: nat, d: seq<Byte>)
    requires Sound(x) && k < |x.chain| * x.g.csize && 0 < n && k % x.g.csize + n <= x.g.csize
    requires SS * k + SS * n <= x.objsize && |d| == SS * n
    requires DataSector(x.g, x.chain, k) + n <= |x.img|
    requires forall q :: 0 <= q < n ==> Cells(d, n)[q] == Fetched(x, k, q)
    ensures d == Content(x)[SS * k..SS * k + SS * n]
  {
    hide Framed, Owned, Distinct, Clear, InOurs, Fetched, Content, Sectors, DataSector;
    var b := Content(x)[SS * k..SS * k + SS * n];
    forall i | 0 <= i < SS * n
      ensures d[i] == b[i]
    {
      var q, r := i / SS, i % SS;
      FetchedIs(x, k, q);
      assert Cells(d, n)[q][r] == d[i];
      ContentAt(x, k + q, r);
    }
  }

  /** A sector of bytes replaced. */
  lemma CellsPatch(d: seq<Byte>, n: nat, i: nat, cell: Sector)
    requires |d| == SS * n && i < n
    ensures SS * i + SS <= |d| && |d[..SS * i] + cell + d[SS * i + SS..]| == SS * n
    ensures Cells(d[..SS * i] + cell + d[SS * i + SS..], n) == Cells(d, n)[i := cell]
  {
    var e := d[..SS * i] + cell + d[SS * i + SS..];
    forall q | 0 <= q < n
      ensures Cells(e, n)[q] == Cells(d, n)[i := cell][q]
    {
      if q < i {
        assert e[SS * q..SS * q + SS] == d[SS * q..SS * q + SS];
      } else if q > i {
        assert e[SS * q..SS * q + SS] == d[SS * q..SS * q + SS];
      } else {
        assert e[SS * q..SS * q + SS] == cell;
      }
    }
  }

  /** Sectors just read, the i-th replaced by the buffer if that holds it dirty. */
  function Merged(d: seq<Byte>, n: nat, dirty: bool, i: nat, buf: Sector): (e: seq<Byte>)
    requires |d| == SS * n
    ensures |e| == SS * n
  {
    if dirty && i < n then d[..SS * i] + buf + d[SS * i + SS..] else d
  }

  /** What the buffer holds dirty overrides what the disk delivered. */
  lemma DirtyRun(x: Shot, k: nat, n: nat, d: seq<Byte>, e: seq<Byte>)
    requires Sound(x) && k < |x.chain| * x.g.csize && 0 < n && k % x.g.csize + n <= x.g.csize
    requires SS * k + SS * n <= x.objsize && |d| == SS * n
    requires DataSector(x.g, x.chain, k) + n <= |x.img|
    requires forall q :: 0 <= q < n ==> Cells(d, n)[q] == x.img[DataSector(x.g, x.chain, k) + q]
    requires var i := Sub32(x.sect, DataSector(x.g, x.chain, k));
             e == Merged(d, n, x.dirty, i, x.buf)
    ensures e == Content(x)[SS * k..SS * k + SS * n]
  {
    hide Owned, Distinct, Clear, InOurs, Content, View, DataSector, Geometry.Ok, GoodClusters, Sub32, Cells;
    var f := DataSector(x.g, x.chain, k);
    SectorSmall(x);
    Offset(x.sect, f, n, x.g.nSectors);
    if x.dirty && Sub32(x.sect, f) < n {
      CellsPatch(d, n, x.sect - f, x.buf);
    }
    RunRead(x, k, n, e);
  }

  /** The unsigned comparison that asks whether a sector lies in a run. */
  lemma Offset(a: nat, b: nat, n: nat, total: nat)
    requires b + n <= total < NO_SECTOR && (a == 0 || a < total)
    ensures Sub32(a, b) < n <==> b <= a < b + n
    ensures b <= a ==> Sub32(a, b) == a - b
  {
  }

  /** n sectors from sector k on lie in one cluster of the file. */
  ghost predicate RunFits(x: Shot, k: nat, n: nat)
    requires x.g.csize > 0
  {
    0 < n && k < |x.chain| * x.g.csize && k % x.g.csize + n <= x.g.csize
  }

  /** A run may be transferred past the window. */
  lemma RunClear(x: Shot, k: nat, n: nat)
    requires Base(x) && RunFits(x, k, n)
    ensures k < |x.chain| * x.g.csize
    ensures var f := DataSector(x.g, x.chain, k);
            f + n <= x.g.nSectors && !(f <= x.winsect < f + n) && forall s :: f <= s < f + n ==> Usable(x, s)
  {
    hide Owned, Distinct, Clear, InOurs, GoodClusters, DataSector, Geometry.Ok, Usable;
    RunInside(x, k, n);
    if DataSector(x.g, x.chain, k) <= x.winsect < DataSector(x.g, x.chain, k) + n {
      WindowNotUsable(x);
    }
  }

  lemma WindowNotUsable(x: Shot)
    requires x.g.csize > 0
    ensures !Usable(x, x.winsect)
  {
  }

  /** A direct read of n sectors from sector k on: the bytes, and the cursor after them. */
  lemma RunReadDone(x: Shot, p: nat, k: nat, n: nat, d: seq<Byte>, e: seq<Byte>, clust: nat)
    requires p == SS * k && Sound(x) && In(x, k, clust) && RunFits(x, k, n)
    requires p + SS * n <= x.objsize && |d| == SS * n
    requires DataSector(x.g, x.chain, k) + n <= |x.img|
    requires forall q :: 0 <= q < n ==> Cells(d, n)[q] == x.img[DataSector(x.g, x.chain, k) + q]
    requires var i := Sub32(x.sect, DataSector(x.g, x.chain, k));
             e == Merged(d, n, x.dirty, i, x.buf)
    ensures e == Content(x)[p..p + SS * n] && At(x, p + SS * n, clust)
  {
    hide Owned, Distinct, Clear, InOurs, DataSector, Geometry.Ok, Content, Cells, Sub32, GoodClusters;
    DirtyRun(x, k, n, d, e);
    MovesIn(x, k, clust, SS * k + SS * n);
  }

  /** A read from the buffer: the bytes, and the cursor after them. */
  lemma PartReadDone(x: Shot, p: nat, n: nat, clust: nat)
    requires Sound(x) && In(x, p / SS, clust) && x.sect == DataSector(x.g, x.chain, p / SS)
    requires 0 < n && p % SS + n <= SS && p + n <= x.objsize
    ensures x.buf[p % SS..p % SS + n] == Content(x)[p..p + n] && At(x, p + n, clust)
  {
    hide Owned, Distinct, Clear, InOurs, DataSector, Geometry.Ok, Content, View, GoodClusters;
    var k := p / SS;
    assert p == SS * k + p % SS;
    BufferRead(x, k, p % SS, n);
    if (p + n) % SS != 0 {
      QuotientIs(p + n, SS, k, p % SS + n);
    }
    MovesIn(x, k, clust, p + n);
  }

  lemma AtKept(x: Shot, y: Shot, p: nat, clust: nat)
    requires Kept(x, y) && y.sect == x.sect && At(x, p, clust)
    ensures At(y, p, clust)
  {
  }

  /** A direct write of n sectors from sector k on: the bytes, and the cursor after them. */
  lemma RunWriteDone(x: Shot, y: Shot, p: nat, k: nat, n: nat, d: seq<Byte>, clust: nat)
    requires p == SS * k && Sound(x) && !x.dirty && In(x, k, clust) && RunFits(x, k, n)
    requires |d| == SS * n && p <= x.objsize && p + |d| < 0x1_0000_0000
    requires DataSector(x.g, x.chain, k) + n <= |x.img|
    requires var f := DataSector(x.g, x.chain, k);
             y == x.(img := Splice(x.img, f, Cells(d, n)), objsize := Max(x.objsize, p + |d|),
                     buf := Refilled(x.buf, d, n, Sub32(x.sect, f)))
    ensures Sound(y) && Content(y) == Overwrite(Content(x), p, d) && At(y, p + |d|, clust)
  {
    hide Owned, Distinct, Clear, InOurs, DataSector, Geometry.Ok, Content, View, GoodClusters, Sub32, Splice, Cells;
    SectorSmall(x);
    Offset(x.sect, DataSector(x.g, x.chain, k), n, x.g.nSectors);
    RunStep(x, y, k, n, d);
    SoundBase(y);
    RunEnds(x.g, k, n);
    hide Sound, Base, Refilled;
    MovesIn(y, k, clust, p + |d|);
  }

  lemma RunEnds(g: Geometry, k: nat, n: nat)
    requires g.csize > 0 && 0 < n && k % g.csize + n <= g.csize
    ensures (SS * k + SS * n) % SS == 0
    ensures SS * (k - k % g.csize) < SS * k + SS * n <= SS * (k - k % g.csize + g.csize)
  {
    QuotientIs(SS * k + SS * n, SS, k + n, 0);
  }

  lemma SectorSmall(x: Shot)
    requires Base(x)
    ensures (x.sect == 0 || x.sect < x.g.nSectors) && x.g.nSectors < NO_SECTOR
  {
    if x.sect != 0 {
      OwnedGood(x.g, x.t, x.chain, x.sclust, x.ours);
      OursInside(x.g, x.ours, x.sect);
    }
  }

  /** The buffer after the i-th of n sectors it stands for was written directly. */
  function Refilled(buf: Sector, d: seq<Byte>, n: nat, i: nat): Sector
    requires |d| == SS * n
  {
    if i < n then Cells(d, n)[i] else buf
  }

  /** A write through the buffer: the bytes, and the cursor after them. */
  lemma PartWriteDone(x: Shot, y: Shot, p: nat, d: seq<Byte>, clust: nat)
    requires Ready(x, p / SS) && In(x, p / SS, clust) && p <= x.objsize && p + |d| < 0x1_0000_0000
    requires 0 < |d| && p % SS + |d| <= SS
    requires var o := p % SS; y == x.(dirty := true, buf := x.buf[..o] + d + x.buf[o + |d|..], objsize := Max(x.objsize, p + |d|))
    ensures Sound(y) && Content(y) == Overwrite(Content(x), p, d) && At(y, p + |d|, clust)
  {
    hide Owned, Distinct, Clear, InOurs, DataSector, Geometry.Ok, Content, View, GoodClusters;
    var k := p / SS;
    assert p == SS * k + p % SS;
    PatchStep(x, y, k, p % SS, d);
    if (p + |d|) % SS != 0 {
      QuotientIs(p + |d|, SS, k, p % SS + |d|);
    }
    MovesIn(y, k, clust, p + |d|);
  }

  lemma FetchedReady(x: Shot, k: nat, clust: nat)
    requires Sound(x) && In(x, k, clust) && x.sect == DataSector(x.g, x.chain, k)
    ensures Ready(x, k)
  {
    SoundReady(x, k);
  }

  lemma MadeOver(x: Shot, y: Shot, k: nat, clust: nat)
    requires Sound(x) && !x.dirty && In(x, k, clust) && SS * k >= x.objsize
    requires y == x.(sect := DataSector(x.g, x.chain, k))
    ensures Ready(y, k) && In(y, k, clust) && Content(y) == Content(x)
  {
    FreshReady(x, y, k);
    KeptContent(x, y);
  }

  /** Truncation at 0 frees the whole chain. */
  lemma EraseStep(x: Shot, y: Shot, eoc: nat)
    requires Sound(x) && x.objsize > 0 && eoc >= |x.t|
    requires Quiet(x.g, Snap(x.img, x.winsect), Snap(y.img, y.winsect))
    requires IsCluster(x.t, x.sclust) && y.t == RemoveFrom(Cut(x.t, 0, eoc), x.sclust).0 && |y.t| == |x.t|
    requires y == x.(t := y.t, img := y.img, winsect := y.winsect, chain := [], sclust := 0, objsize := 0)
    ensures Sound(y) && Content(y) == []
  {
    OwnedErased(x.t, x.chain, x.sclust, x.ours, eoc);
    assert x.chain[..0] == [];
    CutStep(x, y, 0, 0);
  }

  lemma Erasable(x: Shot)
    requires Sound(x) && x.objsize > 0
    ensures IsCluster(x.t, x.sclust)
  {
  }

  /** Truncation inside the file frees the clusters after the cursor's. */
  lemma ShortenStep(x: Shot, y: Shot, p: nat, clust: nat, ncl: nat, eoc: nat)
    requires Sound(x) && At(x, p, clust) && 0 < p < x.objsize && eoc >= |x.t|
    requires Quiet(x.g, Snap(x.img, x.winsect), Snap(y.img, y.winsect))
    requires IsCluster(x.t, clust) && x.t[clust] == ncl && IsCluster(x.t, ncl)
    requires y.t == RemoveFrom(Cut(x.t, clust, eoc), ncl).0 && |y.t| == |x.t|
    requires y == x.(t := y.t, img := y.img, winsect := y.winsect, chain := x.chain[..ClusterIndex(x.g, p) + 1],
        objsize := p)
    ensures Sound(y) && Content(y) == Content(x)[..p] && At(y, p, clust)
  {
    hide Quiet, RemoveFrom, Cut, GoodClusters, Content, Clear, InOurs, WellFormed;
    var n := ClusterIndex(x.g, p) + 1;
    CursorCluster(x, p, clust);
    PositionBound(x.g, p);
    hide ClusterIndex;
    assert Owned(x.t, x.chain, x.sclust, x.ours);
    SoundBase(x);
    hide Owned, Distinct, Sound, Base, At;
    OwnedCut(x.t, x.chain, x.sclust, x.ours, n, eoc);
    CutStep(x, y, n, p);
    SoundBase(y);
    AtCut(x, y, n, p, clust);
  }

  /** The entry of the cursor's cluster. */
  lemma CursorCluster(x: Shot, p: nat, clust: nat)
    requires Base(x) && At(x, p, clust) && p > 0
    ensures var n := ClusterIndex(x.g, p) + 1;
            && IsCluster(x.t, clust) && n <= |x.chain| && x.chain[n - 1] == clust
            && (n < |x.chain| ==> x.t[clust] == x.chain[n] && IsCluster(x.t, x.chain[n])) && (n == |x.chain| ==> x.t[clust] >= |x.t|)
            && x.t[clust] != 1
  {
    var n := ClusterIndex(x.g, p) + 1;
    if n < |x.chain| {
      assert x.t[x.chain[n - 1]] == x.chain[n - 1 + 1];
    }
  }

  lemma PositionBound(g: Geometry, p: nat)
    requires g.csize > 0 && p > 0
    ensures p <= SS * ((ClusterIndex(g, p) + 1) * g.csize)
  {
    var m := SS * g.csize;
    var q := (p - 1) / m;
    assert p - 1 == m * q + (p - 1) % m;
    assert SS * ((q + 1) * g.csize) == m * q + m;
  }

  lemma AtCut(x: Shot, y: Shot, n: nat, p: nat, clust: nat)
    requires Framed(x) && Framed(y) && At(x, p, clust) && p > 0 && n == ClusterIndex(x.g, p) + 1
    requires n <= |x.chain| && y.chain == x.chain[..n] && y.g == x.g && y.sect == x.sect && y.objsize == p
    ensures At(y, p, clust)
  {
    if p % SS != 0 {
      StaysIn(x, p, clust);
      Inside(x.g, p);
      InCut(n, x.g.csize, p / SS);
      hide Geometry.Ok;
    }
  }

  lemma InCut(n: nat, d: nat, k: nat)
    requires d > 0 && k / d < n
    ensures k < n * d
  {
    SectorAt(n, d, k / d, k % d);
  }

  /** Truncation inside the last cluster frees nothing. */
  lemma TrimStep(x: Shot, y: Shot, p: nat, clust: nat)
    requires Sound(x) && At(x, p, clust) && p <= x.objsize && y.t == x.t
    requires Quiet(x.g, Snap(x.img, x.winsect), Snap(y.img, y.winsect))
    requires y == x.(t := y.t, img := y.img, winsect := y.winsect, objsize := p)
    ensures Sound(y) && Content(y) == Content(x)[..p] && At(y, p, clust)
  {
    assert x.chain[..|x.chain|] == x.chain;
    CutStep(x, y, |x.chain|, p);
  }

  // ------------------------------------------------------------------------- seeking

  /** clust is the cluster that begins with sector k of the file. */
  ghost predicate Begins(x: Shot, k: nat, clust: nat)
    requires Framed(x)
  {
    x.g.csize > 0 && k % x.g.csize == 0 && In(x, k, clust)
  }

  /** The cursor's cluster begins at its index. */
  lemma CursorBegins(x: Shot, p: nat, clust: nat)
    requires Base(x) && At(x, p, clust) && p > 0
    ensures Begins(x, ClusterIndex(x.g, p) * x.g.csize, clust) && clust != 0
  {
    var i, n := ClusterIndex(x.g, p), x.g.csize;
    SectorAt(|x.chain|, n, i, 0);
    QuotientIs(i * n, n, i, 0);
    hide Owned, Distinct, Clear, Geometry.Ok;
  }

  /** The byte before position ofs lies in the cluster of the byte before p, or in a later one. */
  predicate SameOrLater(g: Geometry, ofs: nat, p: nat)
    requires g.csize > 0
  {
    (ofs - 1) / (SS * g.csize) >= (p - 1) / (SS * g.csize)
  }

  /** First byte of the cluster of the byte before p; the source masks the low bits off. */
  function ClusterStart(g: Geometry, p: nat): int
    requires g.csize > 0
  {
    (p - 1) / (SS * g.csize) * (SS * g.csize)
  }

  /** A target in this cluster or later lies behind its beginning. */
  lemma BehindCursor(g: Geometry, ofs: nat, p: nat)
    requires g.csize > 0 && p > 0 && ofs > 0 && SameOrLater(g, ofs, p)
    ensures ClusterStart(g, p) == SS * (ClusterIndex(g, p) * g.csize) < ofs
  {
    var m := SS * g.csize;
    var i, j := (p - 1) / m, (ofs - 1) / m;
    assert ofs - 1 == m * j + (ofs - 1) % m;
    assert m * (j - i) >= 0;
    assert m * (j - i) == m * j - m * i;
    assert SS * (i * g.csize) == m * i;
  }

  /** After the cluster that begins with sector k comes the one that begins with sector k + csize. */
  lemma BeginsPrecedes(x: Shot, k: nat, clust: nat)
    requires Base(x) && Begins(x, k, clust)
    ensures Precedes(x, k + x.g.csize, clust) && (k + x.g.csize < |x.chain| * x.g.csize ==> Links(x.t, clust))
    ensures (k + x.g.csize) % x.g.csize == 0
  {
    hide Owned, Distinct, Clear, Geometry.Ok, InOurs, GoodClusters, View;
    var n, i := x.g.csize, k / x.g.csize;
    assert k == n * i;
    ChainEntry(x, i);
    QuotientIs(k + n, n, i + 1, 0);
    if i < |x.chain| - 1 {
      SectorAt(|x.chain|, n, i + 1, 0);
    }
  }

  /** The entry of the i-th cluster. */
  lemma ChainEntry(x: Shot, i: nat)
    requires Base(x) && i < |x.chain|
    ensures IsCluster(x.t, x.chain[i])
    ensures if i < |x.chain| - 1 then x.t[x.chain[i]] == x.chain[i + 1] && Links(x.t, x.chain[i]) else x.t[x.chain[i]] >= |x.t|
  {
    assert i < |x.chain| - 1 ==> x.t[x.chain[i]] == x.chain[i + 1];
  }

  /** Where a seek may leave the cursor, before the size and the buffer follow. */
  ghost predicate Landed(x: Shot, p: nat, clust: nat, nsect: nat)
    requires Framed(x)
  {
    && p <= SS * (|x.chain| * x.g.csize)
    && (p > 0 ==> x.g.csize > 0 && ClusterIndex(x.g, p) < |x.chain| && clust == x.chain[ClusterIndex(x.g, p)])
    && (p % SS != 0 ==> p / SS < |x.chain| * x.g.csize && nsect == DataSector(x.g, x.chain, p / SS))
  }

  /** Inside the cluster that begins with sector k. */
  lemma LandsInside(x: Shot, k: nat, clust: nat, p: nat, s: nat)
    requires Base(x) && Begins(x, k, clust) && SS * k < p <= SS * k + SS * x.g.csize
    requires s == DataSector(x.g, x.chain, k)
    ensures Landed(x, p, clust, s + (p - SS * k) / SS)
  {
    hide Owned, Distinct, Clear, InOurs, View, Geometry.Ok, GoodClusters;
    var n, i := x.g.csize, k / x.g.csize;
    Lands(x.g, k, p);
    assert k == n * i;
    MulAtLeast(n, |x.chain| - i);
    assert n * (|x.chain| - i) == |x.chain| * n - k;
    var j := (p - SS * k) / SS;
    assert p - SS * k == SS * j + (p - SS * k) % SS;
    if p % SS != 0 {
      QuotientIs(p, SS, k + j, (p - SS * k) % SS);
      SectorRun(x.g, x.chain, k, j);
    }
  }

  /** At the end of a chain that could not be stretched. */
  lemma LandsAtEnd(x: Shot, k: nat, clust: nat)
    requires Base(x) && Ends(x, k, clust)
    ensures Landed(x, SS * k, clust, 0)
  {
    var n, m := x.g.csize, |x.chain|;
    hide Owned, Distinct, Clear;
    QuotientIs(k - n, n, m - 1, 0);
    Lands(x.g, k - n, SS * k);
    assert SS * k % SS == 0 by {
      QuotientIs(SS * k, SS, k, 0);
    }
  }

  /** The cursor after the size was made to reach it and the buffer brought to its sector. */
  lemma LandedAt(x: Shot, p: nat, clust: nat)
    requires Framed(x) && Landed(x, p, clust, x.sect) && p <= x.objsize
    ensures At(x, p, clust)
  {
  }

  lemma LandedKept(x: Shot, y: Shot, p: nat, clust: nat, nsect: nat)
    requires Framed(x) && Framed(y) && y.chain == x.chain && y.g == x.g && Landed(x, p, clust, nsect)
    ensures Landed(y, p, clust, nsect)
    ensures p % SS != 0 ==>
            GoodClusters(x.g, x.chain) && p / SS < |x.chain| * x.g.csize && nsect == DataSector(x.g, x.chain, p / SS)
    ensures p % SS == 0 ==> Landed(y, p, clust, y.sect)
  {
  }

  /** The sector number is only needed inside a sector. */
  lemma LandsEven(x: Shot, k: nat, clust: nat, p: nat, s: nat, nsect: nat)
    requires Base(x) && Begins(x, k, clust) && SS * k < p <= SS * k + SS * x.g.csize
    requires k < |x.chain| * x.g.csize && s == DataSector(x.g, x.chain, k)
    requires if (p - SS * k) % SS != 0 then nsect == s + (p - SS * k) / SS else nsect == 0
    ensures Landed(x, p, clust, nsect)
  {
    LandsInside(x, k, clust, p, s);
    SameOffset(p, k);
  }

  lemma SameOffset(p: nat, k: nat)
    requires p >= SS * k
    ensures (p - SS * k) % SS == p % SS
  {
    var d := p - SS * k;
    assert p == SS * (k + d / SS) + d % SS;
    QuotientIs(p, SS, k + d / SS, d % SS);
  }

  lemma BeginsIn(x: Shot, k: nat, clust: nat)
    requires Framed(x) && Begins(x, k, clust)
    ensures In(x, k, clust) && k % x.g.csize == 0 && GoodClusters(x.g, x.chain) && k < |x.chain| * x.g.csize
  {
  }

  /** A position before the end of the file has a cluster. */
  lemma HasCluster(x: Shot, k: nat)
    requires Framed(x) && SS * k < x.objsize
    ensures k < |x.chain| * x.g.csize
  {
  }

  /** Cluster size in bytes. */
  function ClusterBytes(g: Geometry): nat {
    SS * g.csize
  }

  lemma NextStart(x: Shot, k: nat)
    requires Framed(x)
    ensures SS * (k + x.g.csize) == SS * k + ClusterBytes(x.g) && ClusterBytes(x.g) == SS * x.g.csize > 0
  {
  }

  lemma LandsAtStart(x: Shot, clust: nat, nsect: nat)
    requires Framed(x)
    ensures Landed(x, 0, clust, nsect)
  {
  }

  /** The size made to reach the cursor. */
  lemma LandedExtends(x: Shot, y: Shot, p: nat, clust: nat, nsect: nat)
    requires Sound(x) && Landed(x, p, clust, nsect) && p < 0x1_0000_0000 && y == x.(objsize := Max(x.objsize, p))
    ensures Sound(y) && Content(y)[..x.objsize] == Content(x) && Landed(y, p, clust, nsect)
  {
    hide Owned, Distinct, Clear, Content, View, InOurs;
    if p > x.objsize {
      ExtendStep(x, y, p);
    } else {
      assert y == x;
    }
  }
}
