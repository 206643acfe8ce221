/** f_read, f_write, f_lseek and f_truncate of Externals/FatFs/ff.c on one open file. */
module FileIO {
  import opened Radix
  import opened FatTable
  import opened FatVolume
  import opened FatChains
  import opened FileView

  // -------------------------------------------------------------- byte sequences

  /** The first n bytes of a run of sectors. */
  ghost function Flat(v: seq<Sector>, n: nat): (b: seq<Byte>)
    requires n <= SS * |v|
    ensures |b| == n
  {
    seq(n, i requires 0 <= i < n => v[i / SS][i % SS])
  }

  /** b with d written at p; it grows when d runs past its end. */
  function Overwrite(b: seq<Byte>, p: nat, d: seq<Byte>): (r: seq<Byte>)
    requires p <= |b|
    ensures |r| == if p + |d| > |b| then p + |d| else |b|
  {
    b[..p] + d + if p + |d| < |b| then b[p + |d|..] else []
  }

  lemma OverwriteTwice(b: seq<Byte>, p: nat, d: seq<Byte>, e: seq<Byte>)
    requires p <= |b|
    ensures Overwrite(Overwrite(b, p, d), p + |d|, e) == Overwrite(b, p, d + e)
  {
    var x, y := Overwrite(Overwrite(b, p, d), p + |d|, e), Overwrite(b, p, d + e);
    assert |x| == |y|;
  }

  lemma OverwriteNothing(b: seq<Byte>, p: nat)
    requires p <= |b|
    ensures Overwrite(b, p, []) == b
  {
  }

  /** Sectors that carry d at p, and elsewhere below n what they carried before. */
  lemma FlatOverwrite(v: seq<Sector>, v': seq<Sector>, n: nat, p: nat, d: seq<Byte>)
    requires n <= SS * |v| && n <= SS * |v'| && p <= n && p + |d| <= SS * |v'|
    requires forall i :: p <= i < p + |d| ==> v'[i / SS][i % SS] == d[i - p]
    requires forall i :: 0 <= i < n && !(p <= i < p + |d|) ==> v'[i / SS][i % SS] == v[i / SS][i % SS]
    ensures Flat(v', if p + |d| > n then p + |d| else n) == Overwrite(Flat(v, n), p, d)
  {
    var m := if p + |d| > n then p + |d| else n;
    var x, y := Flat(v', m), Overwrite(Flat(v, n), p, d);
    forall i | 0 <= i < m
      ensures x[i] == y[i]
    {
    }
  }

  /** One sector replaced by one that carries d at offset o and otherwise what counted before. */
  lemma FlatPart(v: seq<Sector>, n: nat, k: nat, o: nat, d: seq<Byte>, s: Sector)
    requires n <= SS * |v| && k < |v| && o + |d| <= SS && SS * k + o <= n
    requires forall j :: o <= j < o + |d| ==> s[j] == d[j - o]
    requires forall j :: 0 <= j < SS && !(o <= j < o + |d|) && SS * k + j < n ==> s[j] == v[k][j]
    ensures var p := SS * k + o; Flat(v[k := s], if p + |d| > n then p + |d| else n) == Overwrite(Flat(v, n), p, d)
  {
    var p := SS * k + o;
    forall i | 0 <= i < SS * |v| && i / SS == k
      ensures i == SS * k + i % SS
    {
    }
    forall i | p <= i < p + |d|
      ensures v[k := s][i / SS][i % SS] == d[i - p]
    {
      InSector(i, k, i - SS * k);
    }
    FlatOverwrite(v, v[k := s], n, p, d);
  }

  lemma InSector(i: nat, k: nat, j: nat)
    requires i == SS * k + j && j < SS
    ensures i / SS == k && i % SS == j
  {
  }

  // ------------------------------------------------------------- ownership of clusters

  /** The file's chain in a well-formed table, and the clusters it may use: exactly its own and the free ones. */
  ghost predicate Owned(t: Table, chain: seq<nat>, sclust: nat, ours: set<nat>) {
    && WellFormed(t)
    && (if chain == [] then sclust == 0 else IsChain(t, chain) && chain[0] == sclust && NoPredecessor(t, sclust))
    && (forall c :: c in chain ==> c in ours)
    && (forall c: nat :: IsCluster(t, c) && t[c] == 0 ==> c in ours)
    && (forall c :: c in ours ==> IsCluster(t, c) && (c in chain || t[c] == 0))
  }

  lemma OwnedDistinct(t: Table, chain: seq<nat>, sclust: nat, ours: set<nat>)
    requires Owned(t, chain, sclust, ours)
    ensures Distinct(chain)
  {
    if chain != [] {
      ChainDistinct(t, chain);
    }
  }

  ghost function Elements(chain: seq<nat>): set<nat> {
    set c | c in chain
  }

  lemma {:induction false} DistinctCount(chain: seq<nat>)
    requires Distinct(chain)
    ensures |Elements(chain)| == |chain|
  {
    if chain == [] {
      assert Elements(chain) == {};
    } else {
      var rest := chain[1..];
      assert forall i :: 0 <= i < |rest| ==> rest[i] == chain[i + 1];
      DistinctCount(rest);
      assert chain == [chain[0]] + rest;
      assert Elements(chain) == {chain[0]} + Elements(rest);
    }
  }

  /** No cluster is lost: the chain and the free clusters together never change in number. */
  lemma Accounted(t: Table, chain: seq<nat>, sclust: nat, ours: set<nat>)
    requires Owned(t, chain, sclust, ours)
    ensures |ours| == |chain| + |FreeSet(t)|
  {
    OwnedDistinct(t, chain, sclust, ours);
    DistinctCount(chain);
    if chain != [] {
      NotFree(t, chain);
    }
    hide WellFormed, IsChain, NoPredecessor;
    SplitCount(t, chain, ours);
  }

  lemma SplitCount(t: Table, chain: seq<nat>, ours: set<nat>)
    requires forall c :: c in chain ==> c in ours && IsCluster(t, c) && t[c] != 0
    requires forall c: nat :: IsCluster(t, c) && t[c] == 0 ==> c in ours
    requires forall c :: c in ours ==> IsCluster(t, c) && (c in chain || t[c] == 0)
    ensures |ours| == |Elements(chain)| + |FreeSet(t)|
  {
    var a, b := Elements(chain), FreeSet(t);
    assert a * b == {};
    assert forall c :: c in ours <==> c in a || c in b;
    assert ours == a + b;
  }

  /** The first cluster of an empty file. */
  lemma OwnedFirst(t: Table, sclust: nat, ours: set<nat>, ncl: nat, eoc: nat)
    requires Owned(t, [], sclust, ours) && IsCluster(t, ncl) && t[ncl] == 0 && eoc >= |t|
    ensures Owned(Stretched(t, 0, ncl, eoc), [ncl], ncl, ours)
  {
    ClaimKeeps(t, ncl, eoc);
  }

  /** One more cluster at the end of the chain. */
  lemma OwnedGrows(t: Table, chain: seq<nat>, sclust: nat, ours: set<nat>, ncl: nat, eoc: nat)
    requires Owned(t, chain, sclust, ours) && chain != []
    requires IsCluster(t, ncl) && t[ncl] == 0 && eoc >= |t|
    ensures Owned(Stretched(t, chain[|chain| - 1], ncl, eoc), chain + [ncl], sclust, ours)
  {
    var last := chain[|chain| - 1];
    var u, ch := Stretched(t, last, ncl, eoc), chain + [ncl];
    StretchKeeps(t, last, ncl, eoc);
    NotFree(t, chain);
    ChainDistinct(t, chain);
    hide WellFormed;
    forall i | 0 <= i < |ch| - 1
      ensures u[ch[i]] == ch[i + 1]
    {
      if i < |chain| - 1 {
        assert chain[i] != last && t[chain[i]] == chain[i + 1];
      }
    }
    assert IsChain(u, ch);
    assert NoPredecessor(u, sclust) by {
      forall d | Links(u, d)
        ensures u[d] != sclust
      {
        if d != last && d != ncl {
          assert Links(t, d);
        }
      }
    }
    assert forall c :: c in ch ==> c in ours;
  }

  lemma NotFree(t: Table, chain: seq<nat>)
    requires IsChain(t, chain)
    ensures forall c :: c in chain ==> t[c] != 0
  {
    forall c | c in chain
      ensures t[c] != 0
    {
      var i :| 0 <= i < |chain| && chain[i] == c;
      assert i < |chain| - 1 ==> t[chain[i]] == chain[i + 1];
    }
  }

  /** Removing everything after the first n clusters. */
  lemma OwnedCut(t: Table, chain: seq<nat>, sclust: nat, ours: set<nat>, n: nat, eoc: nat)
    requires Owned(t, chain, sclust, ours) && 0 < n < |chain| && eoc >= |t|
    ensures ValidRemoval(t, chain[n], chain[n - 1])
    ensures Owned(RemoveFrom(Cut(t, chain[n - 1], eoc), chain[n]).0, chain[..n], sclust, ours)
  {
    var p, rest := chain[n - 1], chain[n..];
    assert t[chain[n - 1]] == chain[n - 1 + 1];
    SuffixChain(t, chain, n);
    RemovesExactly(t, rest, p, eoc);
    ChainDistinct(t, chain);
    CutNoPredecessor(t, p, eoc, rest, sclust);
    PrefixChain(t, chain, n, eoc);
    hide WellFormed, IsChain, NoPredecessor, RemoveFrom, ValidRemoval;
    OursCut(t, chain, n, eoc, ours);
  }

  lemma PrefixChain(t: Table, chain: seq<nat>, n: nat, eoc: nat)
    requires IsChain(t, chain) && Distinct(chain) && 0 < n < |chain| && eoc >= |t|
    ensures IsChain(Zeroed(Cut(t, chain[n - 1], eoc), chain[n..]), chain[..n])
  {
    forall i | 0 <= i < n
      ensures chain[i] !in chain[n..] && (i < n - 1 ==> chain[i] != chain[n - 1] && t[chain[i]] == chain[i + 1])
    {
      assert forall j :: 0 <= j < |chain| - n ==> chain[n..][j] == chain[n + j];
    }
  }

  /** After the cut the clusters to use are again the chain's and the free ones. */
  lemma OursCut(t: Table, chain: seq<nat>, n: nat, eoc: nat, ours: set<nat>)
    requires 0 < n < |chain| && eoc >= |t| && IsCluster(t, chain[n - 1])
    requires (forall c :: c in chain ==> c in ours) && (forall c: nat :: IsCluster(t, c) && t[c] == 0 ==> c in ours)
    requires forall c :: c in ours ==> IsCluster(t, c) && (c in chain || t[c] == 0)
    ensures var u := Zeroed(Cut(t, chain[n - 1], eoc), chain[n..]);
            && (forall c :: c in chain[..n] ==> c in ours) && (forall c: nat :: IsCluster(u, c) && u[c] == 0 ==> c in ours)
            && (forall c :: c in ours ==> IsCluster(u, c) && (c in chain[..n] || u[c] == 0))
  {
    assert chain == chain[..n] + chain[n..];
    assert chain[n - 1] in chain[..n];
  }

  lemma CutNoPredecessor(t: Table, p: nat, eoc: nat, rest: seq<nat>, c: nat)
    requires NoPredecessor(t, c) && eoc >= |t|
    ensures NoPredecessor(Zeroed(Cut(t, p, eoc), rest), c)
  {
    var u := Zeroed(Cut(t, p, eoc), rest);
    forall d | Links(u, d)
      ensures u[d] != c
    {
      assert Links(t, d);
    }
  }

  lemma SuffixChain(t: Table, chain: seq<nat>, n: nat)
    requires IsChain(t, chain) && n < |chain|
    ensures IsChain(t, chain[n..])
  {
    forall i | 0 <= i < |chain[n..]| - 1
      ensures t[chain[n..][i]] == chain[n..][i + 1]
    {
      assert t[chain[n + i]] == chain[n + i + 1];
    }
  }

  /** Removing the whole chain. */
  lemma OwnedErased(t: Table, chain: seq<nat>, sclust: nat, ours: set<nat>, eoc: nat)
    requires Owned(t, chain, sclust, ours) && chain != [] && eoc >= |t|
    ensures ValidRemoval(t, sclust, 0)
    ensures Owned(RemoveFrom(Cut(t, 0, eoc), sclust).0, [], 0, ours)
  {
    RemovesExactly(t, chain, 0, eoc);
    hide WellFormed;
  }

  // ---------------------------------------------------------------------- sectors owned

  /** The cluster a data sector belongs to. */
  function OwnerOf(g: Geometry, s: nat): nat
    requires g.csize > 0 && s >= g.database
  {
    2 + (s - g.database) / g.csize
  }

  ghost predicate InOurs(g: Geometry, ours: set<nat>, s: nat)
    requires g.csize > 0
  {
    s >= g.database && OwnerOf(g, s) in ours
  }

  lemma OwnerOfSector(g: Geometry, c: nat, j: nat)
    requires g.Ok() && c >= 2 && j < g.csize
    ensures OwnerOf(g, FirstSector(g, c) + j) == c
  {
    assert g.csize > 0;
    hide Geometry.Ok;
    QuotientIs(FirstSector(g, c) + j - g.database, g.csize, c - 2, j);
  }

  lemma OursInside(g: Geometry, ours: set<nat>, s: nat)
    requires g.Ok() && InOurs(g, ours, s) && forall c :: c in ours ==> 2 <= c < g.nFatent
    ensures 0 < s < g.nSectors && !g.InFat1(s) && !g.InFat2(s)
  {
    Layout(g);
    var q, r := (s - g.database) / g.csize, (s - g.database) % g.csize;
    assert OwnerOf(g, s) == q + 2;
    hide OwnerOf;
    SectorsInside(g, q + 2, r);
    hide Geometry.Ok;
    assert s == FirstSector(g, q + 2) + r;
  }

  /** The file's own sectors are ours. */
  lemma DataSectorOurs(g: Geometry, chain: seq<nat>, ours: set<nat>, k: nat)
    requires GoodClusters(g, chain) && k < |chain| * g.csize && forall c :: c in chain ==> c in ours
    ensures InOurs(g, ours, DataSector(g, chain, k)) && DataSector(g, chain, k) > 0
  {
    InChain(|chain|, g.csize, k);
    OwnerOfSector(g, chain[k / g.csize], k % g.csize);
    DataSectorInside(g, chain, k);
  }

  /** The window shows none of our sectors, so they can be moved past it. */
  ghost predicate Clear(g: Geometry, ours: set<nat>, winsect: nat)
    requires g.csize > 0
  {
    winsect == NO_SECTOR || !InOurs(g, ours, winsect)
  }

  lemma ClearStays(g: Geometry, ours: set<nat>, a: Snap, b: Snap)
    requires g.Ok() && Clear(g, ours, a.winsect) && Quiet(g, a, b)
    ensures Clear(g, ours, b.winsect)
  {
    Layout(g);
  }
}
