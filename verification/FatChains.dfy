/** Cluster chains of Externals/FatFs/ff.c: remove_chain and create_chain on the decoded table. */
module FatChains {
  import opened Radix
  import opened FatTable
  import opened FatVolume

  type Table = seq<nat>

  predicate IsCluster(t: Table, c: int) {
    2 <= c < |t|
  }

  /** Entry c is followed by another cluster. */
  predicate Links(t: Table, c: int) {
    IsCluster(t, c) && 2 <= t[c] < |t|
  }

  /** r falls along every link. */
  ghost predicate Ranks(t: Table, r: seq<nat>) {
    |r| == |t| && forall c :: Links(t, c) ==> r[t[c]] < r[c]
  }

  /** No entry reads 1, no link points at a free cluster, no cluster has two predecessors, and the
      links form no cycle. */
  ghost predicate WellFormed(t: Table) {
    && (forall c :: IsCluster(t, c) ==> t[c] != 1)
    && (forall c :: Links(t, c) ==> t[t[c]] != 0)
    && (forall c, d :: Links(t, c) && Links(t, d) && t[c] == t[d] ==> c == d)
    && exists r :: Ranks(t, r)
  }

  ghost predicate NoPredecessor(t: Table, c: nat) {
    forall d :: Links(t, d) ==> t[d] != c
  }

  /** ch follows the links from its first cluster to an end-of-chain value. */
  ghost predicate IsChain(t: Table, ch: seq<nat>) {
    && |ch| > 0 && (forall i :: 0 <= i < |ch| ==> IsCluster(t, ch[i]))
    && (forall i :: 0 <= i < |ch| - 1 ==> t[ch[i]] == ch[i + 1])
    && t[ch[|ch| - 1]] >= |t|
  }

  // ------------------------------------------------------- chains of a good table

  /** Every allocated cluster of a well-formed table starts a chain that ends. */
  lemma {:induction false} ChainExists(t: Table, r: seq<nat>, c: nat) returns (ch: seq<nat>)
    requires WellFormed(t) && Ranks(t, r) && IsCluster(t, c) && t[c] != 0
    ensures IsChain(t, ch) && ch[0] == c
    decreases r[c]
  {
    if t[c] >= |t| {
      ch := [c];
    } else {
      assert Links(t, c);
      var rest := ChainExists(t, r, t[c]);
      ch := [c] + rest;
      forall i | 0 <= i < |ch| - 1
        ensures t[ch[i]] == ch[i + 1]
      {
        if i > 0 {
          assert ch[i] == rest[i - 1] && ch[i + 1] == rest[i];
        }
      }
    }
  }

  lemma ChainTail(t: Table, ch: seq<nat>)
    requires IsChain(t, ch) && |ch| > 1
    ensures IsChain(t, ch[1..])
  {
    assert forall i :: 0 <= i < |ch| - 1 ==> ch[1..][i] == ch[i + 1];
  }

  lemma {:induction false} RanksFall(t: Table, r: seq<nat>, ch: seq<nat>, i: nat, j: nat)
    requires Ranks(t, r) && IsChain(t, ch) && i < j < |ch|
    ensures r[ch[j]] < r[ch[i]]
    decreases j
  {
    assert t[ch[j - 1]] == ch[j - 1 + 1];
    assert Links(t, ch[j - 1]);
    if i < j - 1 {
      RanksFall(t, r, ch, i, j - 1);
    }
  }

  /** A chain of an acyclic table never visits a cluster twice. */
  lemma ChainDistinct(t: Table, ch: seq<nat>)
    requires WellFormed(t) && IsChain(t, ch)
    ensures forall i, j :: 0 <= i < j < |ch| ==> ch[i] != ch[j]
  {
    var r :| Ranks(t, r);
    forall i, j | 0 <= i < j < |ch|
      ensures ch[i] != ch[j]
    {
      RanksFall(t, r, ch, i, j);
    }
  }

  /** Two chains from the same cluster are the same chain. */
  lemma {:induction false} ChainUnique(t: Table, ch: seq<nat>, ch': seq<nat>)
    requires IsChain(t, ch) && IsChain(t, ch') && ch[0] == ch'[0]
    ensures ch == ch'
  {
    assert |ch| > 1 ==> t[ch[0]] == ch[0 + 1];
    assert |ch'| > 1 ==> t[ch'[0]] == ch'[0 + 1];
    if |ch| > 1 && |ch'| > 1 {
      ChainTail(t, ch);
      ChainTail(t, ch');
      ChainUnique(t, ch[1..], ch'[1..]);
      assert ch == [ch[0]] + ch[1..] && ch' == [ch'[0]] + ch'[1..];
    } else {
      assert ch == [ch[0]] && ch' == [ch'[0]];
    }
  }

  // ------------------------------------------- single writes that keep a table good

  /** Writing 0 or an end-of-chain value over the head of an orphaned chain. */
  lemma CutKeeps(t: Table, c: nat, v: nat)
    requires WellFormed(t) && IsCluster(t, c)
    requires v >= |t| || (v == 0 && NoPredecessor(t, c))
    ensures WellFormed(t[c := v])
  {
    var r :| Ranks(t, r);
    var u := t[c := v];
    assert forall d :: Links(u, d) ==> d != c && Links(t, d) && u[d] == t[d];
    assert Ranks(u, r);
  }

  /** What c pointed at is an orphan once c no longer does. */
  lemma CutOrphans(t: Table, c: nat, v: nat, d: nat)
    requires WellFormed(t) && Links(t, c) && t[c] == d && (v == 0 || v >= |t|)
    ensures NoPredecessor(t[c := v], d)
  {
    var u := t[c := v];
    assert forall e :: Links(u, e) ==> e != c && Links(t, e) && u[e] == t[e];
  }

  /** Claiming a free cluster as a chain of its own. */
  lemma ClaimKeeps(t: Table, n: nat, v: nat)
    requires WellFormed(t) && IsCluster(t, n) && t[n] == 0 && v >= |t|
    ensures WellFormed(t[n := v]) && NoPredecessor(t[n := v], n)
  {
    CutKeeps(t, n, v);
    var u := t[n := v];
    assert forall e :: Links(u, e) ==> e != n && Links(t, e) && u[e] == t[e];
  }

  /** Linking the end of a chain to an orphan of one cluster. */
  lemma LinkKeeps(t: Table, c: nat, n: nat)
    requires WellFormed(t) && IsCluster(t, c) && t[c] >= |t|
    requires IsCluster(t, n) && n != c && t[n] >= |t| && NoPredecessor(t, n)
    ensures WellFormed(t[c := n])
  {
    var r :| Ranks(t, r);
    var u := t[c := n];
    var q := seq(|t|, i requires 0 <= i < |t| => if i == n then 0 else r[i] + 1);
    forall d | Links(u, d)
      ensures q[u[d]] < q[d] && u[u[d]] != 0 && (d == c || (Links(t, d) && u[d] == t[d] && t[d] != n))
    {
      if d != c {
        assert Links(t, d);
      }
    }
    assert Ranks(u, q);
  }

  // ------------------------------------------------------------------ free clusters

  ghost function FreeSet(t: Table): set<nat> {
    set c: nat | c < |t| && 2 <= c && t[c] == 0
  }

  ghost function Allocated(t: Table): set<nat> {
    set c: nat | c < |t| && 2 <= c && t[c] != 0
  }

  lemma FreeOne(t: Table, c: nat)
    requires IsCluster(t, c) && t[c] != 0
    ensures |FreeSet(t[c := 0])| == |FreeSet(t)| + 1
    ensures Allocated(t[c := 0]) < Allocated(t)
  {
    assert FreeSet(t[c := 0]) == FreeSet(t) + {c};
    assert c in Allocated(t) && c !in Allocated(t[c := 0]);
  }

  lemma TakeOne(t: Table, c: nat, v: nat)
    requires IsCluster(t, c) && t[c] == 0 && v != 0
    ensures |FreeSet(t[c := v])| == |FreeSet(t)| - 1
  {
    assert FreeSet(t[c := v]) == FreeSet(t) - {c};
  }

  lemma KeepFree(t: Table, c: nat, v: nat)
    requires IsCluster(t, c) && t[c] != 0 && v != 0
    ensures FreeSet(t[c := v]) == FreeSet(t)
  {
  }

  // ------------------------------------------------------------------ remove_chain

  /** The removing loop: the table it leaves, and whether it got to the end of the chain without
      meeting an entry of 1. It ends on every table, because each round frees a cluster. */
  ghost function RemoveFrom(t: Table, c: nat): (Table, bool)
    requires IsCluster(t, c)
    decreases Allocated(t)
  {
    FreeOneMaybe(t, c);
    if t[c] == 0 then (t, true)
    else if t[c] == 1 then (t, false)
    else if t[c] < |t| then RemoveFrom(t[c := 0], t[c])
    else (t[c := 0], true)
  }

  lemma FreeOneMaybe(t: Table, c: nat)
    requires IsCluster(t, c)
    ensures t[c] != 0 ==> Allocated(t[c := 0]) < Allocated(t)
  {
    if t[c] != 0 {
      FreeOne(t, c);
    }
  }

  /** The table with every cluster of ch freed. */
  function Zeroed(t: Table, ch: seq<nat>): Table {
    seq(|t|, i requires 0 <= i < |t| => if i in ch then 0 else t[i])
  }

  /** On a chain without repetitions exactly its clusters are freed. */
  lemma {:induction false} RemovesChain(t: Table, ch: seq<nat>)
    requires IsChain(t, ch) && forall i, j :: 0 <= i < j < |ch| ==> ch[i] != ch[j]
    ensures RemoveFrom(t, ch[0]) == (Zeroed(t, ch), true)
    decreases |ch|
  {
    var c := ch[0];
    var u := t[c := 0];
    if |ch| > 1 {
      ChainTail(t, ch);
      assert forall i :: 0 <= i < |ch| - 1 ==> ch[1..][i] == ch[i + 1];
      assert IsChain(u, ch[1..]);
      RemovesChain(u, ch[1..]);
      assert ch == [c] + ch[1..];
      assert Zeroed(u, ch[1..]) == Zeroed(t, ch);
    } else {
      assert ch == [c];
      assert u == Zeroed(t, ch);
    }
  }

  /** 0xFFFFFFFF as the entry width keeps it: an end-of-chain value on every volume. */
  function Eoc(g: Geometry): nat {
    0xFFFF_FFFF % g.Modulus()
  }

  lemma EocEnds(g: Geometry)
    requires g.Ok()
    ensures g.nFatent <= Eoc(g) && 0 % g.Modulus() == 0
  {
  }

  lemma ZeroFits(g: Geometry)
    ensures 0 % g.Modulus() == 0
  {
  }

  /** Cluster numbers fit the entry width. */
  lemma ClusterFits(g: Geometry, c: nat)
    requires g.Ok() && c < g.nFatent
    ensures c % g.Modulus() == c
  {
  }

  ghost predicate AllGood(log: seq<Table>, from: nat) {
    forall i :: from <= i < |log| ==> WellFormed(log[i])
  }

  lemma AllGoodGrows(log: seq<Table>, from: nat, t: Table)
    requires AllGood(log, from) && WellFormed(t)
    ensures AllGood(log + [t], from)
  {
  }

  /** The cached number of free clusters, unless out of range, is the true one. */
  ghost predicate CountIs(n: nat, t: Table) {
    n <= |t| - 2 ==> n == |FreeSet(t)|
  }

  /** One more free cluster, counted the way remove_chain counts it. */
  lemma CountUp(n: nat, t: Table, c: nat)
    requires |t| >= 2 && CountIs(n, t) && IsCluster(t, c) && t[c] != 0
    ensures CountIs(if n < |t| - 2 then n + 1 else n, t[c := 0])
  {
    FreeOne(t, c);
    FreeBound(t[c := 0]);
  }

  lemma FreeBound(t: Table)
    requires |t| >= 2
    ensures |FreeSet(t)| <= |t| - 2
  {
    Below(FreeSet(t), |t|);
  }

  lemma {:induction false} Below(s: set<nat>, n: nat)
    requires n >= 2 && forall c :: c in s ==> 2 <= c < n
    ensures |s| <= n - 2
  {
    if n == 2 {
      assert s == {};
    } else {
      Below(s - {n - 1}, n - 1);
    }
  }

  /** Everything the loop of remove_chain keeps, from the table t0 and first cluster c0 it began with. */
  ghost predicate Removing(t0: Table, c0: nat, t: Table, c: nat, log: seq<Table>, from: nat, good: bool) {
    && IsCluster(t0, c0) && IsCluster(t, c) && |t| == |t0|
    && RemoveFrom(t0, c0) == RemoveFrom(t, c)
    && (good ==> WellFormed(t) && NoPredecessor(t, c) && AllGood(log, from))
  }

  /** One round that finds a further link. */
  lemma RemovingStep(t0: Table, c0: nat, t: Table, c: nat, log: seq<Table>, from: nat, good: bool)
    requires Removing(t0, c0, t, c, log, from, good) && Links(t, c)
    ensures Removing(t0, c0, t[c := 0], t[c], log + [t[c := 0]], from, good)
    ensures Allocated(t[c := 0]) < Allocated(t)
  {
    FreeOne(t, c);
    if good {
      CutKeeps(t, c, 0);
      CutOrphans(t, c, 0, t[c]);
      AllGoodGrows(log, from, t[c := 0]);
    }
  }

  lemma RemovingLast(t0: Table, c0: nat, t: Table, c: nat, log: seq<Table>, from: nat, good: bool)
    requires Removing(t0, c0, t, c, log, from, good) && t[c] >= |t|
    ensures RemoveFrom(t0, c0) == (t[c := 0], true)
    ensures good ==> WellFormed(t[c := 0]) && AllGood(log + [t[c := 0]], from)
  {
    if good {
      CutKeeps(t, c, 0);
      AllGoodGrows(log, from, t[c := 0]);
    }
  }

  lemma RemovingStops(t0: Table, c0: nat, t: Table, c: nat, log: seq<Table>, from: nat, good: bool)
    requires Removing(t0, c0, t, c, log, from, good) && t[c] < 2
    ensures RemoveFrom(t0, c0) == (t, t[c] == 0)
    ensures good ==> WellFormed(t) && AllGood(log, from) && t[c] == 0
  {
  }

  /** Marks one cluster of the chain free and counts it. */
  method FreeCluster(fs: FatFs, clst: nat) returns (res: FResult)
    requires fs.Valid() && IsCluster(fs.Table(), clst) && fs.Table()[clst] != 0
    modifies fs
    ensures fs.Valid() && Quiet(fs.g, old(fs.Now()), fs.Now()) && fs.lastClst == old(fs.lastClst)
    ensures res == FR_OK || (res == FR_DISK_ERR && fs.log == old(fs.log))
    ensures res == FR_OK ==> fs.Table() == old(fs.Table())[clst := 0] && fs.log == old(fs.log) + [fs.Table()]
    ensures res == FR_OK && CountIs(old(fs.freeClst), old(fs.Table())) ==> CountIs(fs.freeClst, fs.Table())
    ensures fs.faults >= old(fs.faults) && (res == FR_DISK_ERR ==> fs.faults > old(fs.faults))
  {
    hide Geometry.Ok, Geometry.Modulus, Same, Decoded, Put, Quiet, CountIs, FatFs.Table, FatFs.Mirrored;
    ZeroFits(fs.g);
    ghost var t, counted := fs.Table(), CountIs(fs.freeClst, fs.Table());
    res := fs.PutFat(clst, 0);
    if res == FR_OK {
      if counted { CountUp(fs.freeClst, t, clst); }
      if fs.freeClst < fs.g.nFatent - 2 {
        fs.freeClst := fs.freeClst + 1;
        fs.fsiFlag := true;
      }
    }
  }

  /** The loop of remove_chain. */
  method RemoveLoop(fs: FatFs, first: nat, ghost good: bool) returns (res: FResult)
    requires fs.Valid() && IsCluster(fs.Table(), first)
    requires good ==> WellFormed(fs.Table()) && NoPredecessor(fs.Table(), first)
    modifies fs
    ensures fs.Valid() && Quiet(fs.g, old(fs.Now()), fs.Now()) && fs.lastClst == old(fs.lastClst)
    ensures res == FR_OK || res == FR_INT_ERR || res == FR_DISK_ERR
    ensures res == FR_OK ==> RemoveFrom(old(fs.Table()), first) == (fs.Table(), true)
    ensures res == FR_INT_ERR ==> RemoveFrom(old(fs.Table()), first) == (fs.Table(), false)
    ensures old(fs.log) <= fs.log && (good ==> AllGood(fs.log, |old(fs.log)|))
    ensures good && res == FR_OK ==> WellFormed(fs.Table())
    ensures CountIs(old(fs.freeClst), old(fs.Table())) && res != FR_DISK_ERR ==> CountIs(fs.freeClst, fs.Table())
    ensures fs.faults >= old(fs.faults) && (res == FR_DISK_ERR ==> fs.faults > old(fs.faults))
  {
    hide Geometry.Ok, Geometry.Modulus, Same, Decoded, Put, Quiet, WellFormed, NoPredecessor, AllGood, RemoveFrom,
        CountIs, FatFs.Table, FatFs.Mirrored;
    ZeroFits(fs.g);
    var clst: nat := first;
    ghost var t0, from, counted := fs.Table(), |fs.log|, CountIs(fs.freeClst, fs.Table());
    QuietRefl(fs.g, fs.Now());
    RemovingStart(t0, first, fs.log, good);
    while true
      invariant fs.Valid() && Quiet(fs.g, old(fs.Now()), fs.Now()) && fs.lastClst == old(fs.lastClst)
      invariant fs.faults >= old(fs.faults)
      invariant old(fs.log) <= fs.log
      invariant Removing(t0, first, fs.Table(), clst, fs.log, from, good)
      invariant counted ==> CountIs(fs.freeClst, fs.Table())
      decreases Allocated(fs.Table())
    {
      ghost var t, img, log := fs.Table(), fs.Now(), fs.log;
      var nxt := fs.GetFat(clst);
      QuietTrans(fs.g, old(fs.Now()), img, fs.Now());
      if nxt == DISK_ERROR {
        return FR_DISK_ERR;
      }
      if nxt < 2 {
        RemovingStops(t0, first, t, clst, log, from, good);
        return if nxt == 0 then FR_OK else FR_INT_ERR;
      }
      img := fs.Now();
      res := FreeCluster(fs, clst);
      QuietTrans(fs.g, old(fs.Now()), img, fs.Now());
      if res != FR_OK {
        return;
      }
      if nxt >= fs.g.nFatent {
        RemovingLast(t0, first, t, clst, log, from, good);
        return;
      }
      RemovingStep(t0, first, t, clst, log, from, good);
      clst := nxt;
    }
  }

  lemma RemovingStart(t: Table, c: nat, log: seq<Table>, good: bool)
    requires IsCluster(t, c) && (good ==> WellFormed(t) && NoPredecessor(t, c))
    ensures Removing(t, c, t, c, log, |log|, good)
  {
  }

  /** The table remove_chain walks: the previous cluster, if given, now ends its chain. */
  function Cut(t: Table, pclst: nat, eoc: nat): Table {
    if pclst != 0 && pclst < |t| then t[pclst := eoc] else t
  }

  /** A chain's head without predecessor, or a link of a chain given with its predecessor. */
  ghost predicate ValidRemoval(t: Table, clst: nat, pclst: nat) {
    && WellFormed(t) && IsCluster(t, clst)
    && if pclst == 0 then NoPredecessor(t, clst) else IsCluster(t, pclst) && t[pclst] == clst
  }

  lemma CutPrepares(t: Table, clst: nat, pclst: nat, eoc: nat)
    requires ValidRemoval(t, clst, pclst) && eoc >= |t|
    ensures WellFormed(Cut(t, pclst, eoc)) && NoPredecessor(Cut(t, pclst, eoc), clst)
    ensures pclst != 0 ==> IsCluster(t, pclst) && FreeSet(Cut(t, pclst, eoc)) == FreeSet(t)
  {
    if pclst != 0 {
      assert Links(t, pclst);
      CutKeeps(t, pclst, eoc);
      CutOrphans(t, pclst, eoc, clst);
      KeepFree(t, pclst, eoc);
    }
  }

  /** remove_chain. On any table it ends with the table RemoveFrom gives; on valid arguments every
      table it writes on the way is well formed, and the free count stays right. */
  method RemoveChain(fs: FatFs, clst: nat, pclst: nat) returns (res: FResult)
    requires fs.Valid()
    modifies fs
    ensures fs.Valid() && Quiet(fs.g, old(fs.Now()), fs.Now()) && fs.lastClst == old(fs.lastClst)
    ensures res == FR_OK || res == FR_INT_ERR || res == FR_DISK_ERR
    ensures !IsCluster(old(fs.Table()), clst) ==> res == FR_INT_ERR && fs.Table() == old(fs.Table())
    ensures res == FR_OK ==> IsCluster(old(fs.Table()), clst) && (pclst == 0 || IsCluster(old(fs.Table()), pclst))
    ensures res == FR_OK ==> RemoveFrom(Cut(old(fs.Table()), pclst, Eoc(fs.g)), clst) == (fs.Table(), true)
    ensures res == FR_INT_ERR && IsCluster(old(fs.Table()), clst) ==>
                if pclst != 0 && !IsCluster(old(fs.Table()), pclst) then fs.Table() == old(fs.Table())
                else RemoveFrom(Cut(old(fs.Table()), pclst, Eoc(fs.g)), clst) == (fs.Table(), false)
    ensures old(fs.log) <= fs.log
    ensures ValidRemoval(old(fs.Table()), clst, pclst) ==> AllGood(fs.log, |old(fs.log)|)
    ensures ValidRemoval(old(fs.Table()), clst, pclst) && res == FR_OK ==> WellFormed(fs.Table())
    ensures ValidRemoval(old(fs.Table()), clst, pclst) && res != FR_DISK_ERR ==>
            CountIs(old(fs.freeClst), old(fs.Table())) ==> CountIs(fs.freeClst, fs.Table())
    ensures fs.faults >= old(fs.faults) && (res == FR_DISK_ERR ==> fs.faults > old(fs.faults))
  {
    EocEnds(fs.g);
    hide Geometry.Ok, Geometry.Modulus, Same, Decoded, Put, Quiet, WellFormed, NoPredecessor, AllGood, RemoveFrom,
        CountIs, FatFs.Table, FatFs.Mirrored;
    ghost var t0, img0, log0 := fs.Table(), fs.Now(), fs.log;
    ghost var good := ValidRemoval(t0, clst, pclst);
    QuietRefl(fs.g, img0);
    NothingLogged(log0);
    if clst < 2 || clst >= fs.g.nFatent {
      return FR_INT_ERR;
    }
    if good { CutPrepares(t0, clst, pclst, Eoc(fs.g)); }
    hide ValidRemoval;
    if pclst != 0 {
      res := fs.PutFat(pclst, 0xFFFF_FFFF);
      if res != FR_OK {
        return;
      }
      if good { AllGoodGrows(log0, |log0|, fs.Table()); }
    }
    ghost var img, log := fs.Now(), fs.log;
    res := RemoveLoop(fs, clst, good);
    QuietTrans(fs.g, img0, img, fs.Now());
    if good { AllGoodJoins(log0, log, fs.log); }
  }

  lemma NothingLogged(log: seq<Table>)
    ensures AllGood(log, |log|)
  {
  }

  lemma AllGoodJoins(a: seq<Table>, b: seq<Table>, c: seq<Table>)
    requires a <= b <= c && AllGood(b, |a|) && AllGood(c, |b|)
    ensures AllGood(c, |a|)
  {
  }

  /** remove_chain on a well-formed chain frees exactly its clusters from clst on, makes pclst the new
      end, and leaves every other entry as it was. */
  lemma RemovesExactly(t: Table, ch: seq<nat>, pclst: nat, eoc: nat)
    requires IsChain(t, ch) && ValidRemoval(t, ch[0], pclst) && eoc >= |t|
    ensures RemoveFrom(Cut(t, pclst, eoc), ch[0]) == (Zeroed(Cut(t, pclst, eoc), ch), true)
    ensures pclst != 0 ==> pclst !in ch
    ensures var u := RemoveFrom(Cut(t, pclst, eoc), ch[0]).0;
      |u| == |t| && forall c :: 0 <= c < |t| ==>
        u[c] == if c in ch then 0 else if pclst != 0 && c == pclst then eoc else t[c]
    ensures WellFormed(Zeroed(Cut(t, pclst, eoc), ch))
  {
    ChainDistinct(t, ch);
    var u := Cut(t, pclst, eoc);
    if pclst != 0 {
      if pclst in ch {
        var i :| 0 <= i < |ch| && ch[i] == pclst;
        LoopsBack(t, ch, i);
      }
    }
    assert IsChain(u, ch);
    RemovesChain(u, ch);
    CutPrepares(t, ch[0], pclst, eoc);
    ZeroedGood(u, ch);
  }

  /** No cluster of a chain is its own chain's predecessor. */
  lemma LoopsBack(t: Table, ch: seq<nat>, i: nat)
    requires WellFormed(t) && IsChain(t, ch) && i < |ch|
    ensures t[ch[i]] != ch[0]
  {
    ChainDistinct(t, ch);
    assert i < |ch| - 1 ==> t[ch[i]] == ch[i + 1];
  }

  lemma {:induction false} ZeroedGood(t: Table, ch: seq<nat>)
    requires WellFormed(t) && IsChain(t, ch) && NoPredecessor(t, ch[0])
    ensures WellFormed(Zeroed(t, ch))
    decreases |ch|
  {
    ChainDistinct(t, ch);
    var c := ch[0];
    var u := t[c := 0];
    CutKeeps(t, c, 0);
    if |ch| > 1 {
      assert t[ch[0]] == ch[0 + 1];
      CutOrphans(t, c, 0, ch[1]);
      ChainTail(t, ch);
      assert forall i :: 0 <= i < |ch| - 1 ==> ch[1..][i] == ch[i + 1];
      assert IsChain(u, ch[1..]);
      hide WellFormed;
      ZeroedGood(u, ch[1..]);
      assert ch == [c] + ch[1..];
      assert Zeroed(u, ch[1..]) == Zeroed(t, ch);
    } else {
      assert ch == [c];
      assert u == Zeroed(t, ch);
    }
  }

  // ------------------------------------------------------------------ create_chain

  /** r is the first free cluster after s, going round past the last cluster to cluster 2. */
  ghost predicate FirstFreeAfter(t: Table, s: nat, r: nat) {
    && IsCluster(t, r) && t[r] == 0
    && (forall c :: IsCluster(t, c) && t[c] == 0 ==> if r > s then c <= s || c >= r else c >= r && c <= s)
  }

  /** The wrap-around search of create_chain: 0 only when no cluster is free. */
  method FindFree(fs: FatFs, scl: nat) returns (ncl: nat)
    requires fs.Valid() && 1 <= scl < fs.g.nFatent
    modifies fs`disk, fs`writesOk, fs`faults, fs`wflag, fs`win, fs`winsect
    ensures fs.Valid() && Quiet(fs.g, old(fs.Now()), fs.Now()) && fs.Table() == old(fs.Table())
    ensures ncl == 0 ==> FreeSet(fs.Table()) == {}
    ensures ncl == 1 ==> HasBadEntry(fs.Table())
    ensures ncl >= 2 && ncl != DISK_ERROR ==> FirstFreeAfter(fs.Table(), scl, ncl)
    ensures fs.faults >= old(fs.faults) && (ncl == DISK_ERROR ==> fs.faults > old(fs.faults))
  {
    SmallVolume(fs.g);
    hide Geometry.Ok, Same, Decoded, Put, Quiet;
    ghost var t, img0 := fs.Table(), fs.Now();
    QuietRefl(fs.g, img0);
    ncl := scl;
    while true
      invariant fs.faults >= old(fs.faults)
      invariant fs.Valid() && Quiet(fs.g, img0, fs.Now()) && fs.Table() == t
      invariant 1 <= ncl < fs.g.nFatent
      invariant forall c :: IsCluster(t, c) && (if ncl >= scl then scl < c <= ncl else c > scl || c <= ncl) ==> t[c] != 0
      decreases if ncl >= scl then fs.g.nFatent - ncl + scl else scl - ncl
    {
      ncl := ncl + 1;
      if ncl >= fs.g.nFatent {
        ncl := 2;
        if ncl > scl {
          return 0;
        }
      }
      ghost var img := fs.Now();
      var cs := fs.GetFat(ncl);
      QuietTrans(fs.g, img0, img, fs.Now());
      if cs == 0 {
        return;
      }
      if cs == 1 || cs == DISK_ERROR {
        return cs;
      }
      if ncl == scl {
        return 0;
      }
    }
  }

  /** The cluster tried first when a chain is stretched. */
  function NextCluster(t: Table, c: nat): nat {
    if c + 1 >= |t| then 2 else c + 1
  }

  /** Where the search starts. */
  function SearchFrom(t: Table, clst: nat, last: nat): nat {
    if clst == 0 then (if last == 0 || last >= |t| then 1 else last)
    else if 2 <= last < |t| then last else clst
  }

  /** The cluster create_chain takes: the one right after the chain's end if free, else the first free
      one after the last allocation. */
  ghost predicate Chosen(t: Table, clst: nat, last: nat, ncl: nat) {
    && IsCluster(t, ncl) && t[ncl] == 0
    && var next := NextCluster(t, clst);
       if clst != 0 && IsCluster(t, next) && t[next] == 0 then ncl == next
       else FirstFreeAfter(t, SearchFrom(t, clst, last), ncl)
  }

  /** Tests the cluster next to the one to stretch: the cluster if it is free, 0 if it is not. */
  method TestNext(fs: FatFs, clst: nat) returns (ncl: nat)
    requires fs.Valid() && 2 <= clst < fs.g.nFatent
    modifies fs`disk, fs`writesOk, fs`faults, fs`wflag, fs`win, fs`winsect
    ensures fs.Valid() && Quiet(fs.g, old(fs.Now()), fs.Now()) && fs.Table() == old(fs.Table())
    ensures ncl == 0 ==> fs.Table()[NextCluster(fs.Table(), clst)] != 0
    ensures ncl == 1 ==> HasBadEntry(fs.Table())
    ensures ncl >= 2 && ncl != DISK_ERROR ==> ncl == NextCluster(fs.Table(), clst) && fs.Table()[ncl] == 0
    ensures fs.faults >= old(fs.faults) && (ncl == DISK_ERROR ==> fs.faults > old(fs.faults))
    ensures IsCluster(fs.Table(), NextCluster(fs.Table(), clst))
  {
    SmallVolume(fs.g);
    hide Geometry.Ok, Same, Decoded, Put, Quiet, FatFs.Table, FatFs.Mirrored;
    ncl := clst + 1;
    if ncl >= fs.g.nFatent {
      ncl := 2;
    }
    var cs := fs.GetFat(ncl);
    if cs == 1 || cs == DISK_ERROR {
      return cs;
    }
    if cs != 0 {
      ncl := 0;
    }
  }

  /** The search of create_chain. */
  method PickCluster(fs: FatFs, clst: nat) returns (ncl: nat)
    requires fs.Valid() && (clst == 0 || 2 <= clst < fs.g.nFatent)
    modifies fs`disk, fs`writesOk, fs`faults, fs`wflag, fs`win, fs`winsect
    ensures fs.Valid() && Quiet(fs.g, old(fs.Now()), fs.Now()) && fs.Table() == old(fs.Table())
    ensures ncl == 0 ==> FreeSet(fs.Table()) == {}
    ensures ncl == 1 ==> HasBadEntry(fs.Table())
    ensures ncl >= 2 && ncl != DISK_ERROR ==> Chosen(fs.Table(), clst, fs.lastClst, ncl)
    ensures fs.faults >= old(fs.faults) && (ncl == DISK_ERROR ==> fs.faults > old(fs.faults))
  {
    SmallVolume(fs.g);
    hide Geometry.Ok, Same, Decoded, Put, Quiet, FirstFreeAfter, FatFs.Table, FatFs.Mirrored, NextCluster;
    ghost var img0 := fs.Now();
    QuietRefl(fs.g, img0);
    var scl := clst;
    if clst == 0 {
      scl := fs.lastClst;
      if scl == 0 || scl >= fs.g.nFatent {
        scl := 1;
      }
    } else {
      ncl := TestNext(fs, clst);
      if ncl != 0 {
        return;
      }
      if 2 <= fs.lastClst < fs.g.nFatent {
        scl := fs.lastClst;
      }
    }
    ghost var img := fs.Now();
    ncl := FindFree(fs, scl);
    QuietTrans(fs.g, img0, img, fs.Now());
  }

  lemma SmallVolume(g: Geometry)
    requires g.Ok()
    ensures 3 <= g.nFatent < DISK_ERROR
  {
  }

  /** The table with ncl claimed and, if there is a chain to stretch, linked to it. */
  function Stretched(t: Table, clst: nat, ncl: nat, eoc: nat): Table
    requires ncl < |t|
  {
    if clst != 0 && clst < |t| then t[ncl := eoc][clst := ncl] else t[ncl := eoc]
  }

  /** A new chain, or one of the clusters of an existing chain. */
  ghost predicate ValidStretch(t: Table, clst: nat) {
    WellFormed(t) && (clst == 0 || (IsCluster(t, clst) && t[clst] != 0))
  }

  lemma StretchKeeps(t: Table, clst: nat, ncl: nat, eoc: nat)
    requires ValidStretch(t, clst) && (clst == 0 || t[clst] >= |t|)
    requires IsCluster(t, ncl) && t[ncl] == 0 && eoc >= |t|
    ensures WellFormed(t[ncl := eoc]) && WellFormed(Stretched(t, clst, ncl, eoc))
  {
    ClaimKeeps(t, ncl, eoc);
    if clst != 0 {
      LinkKeeps(t[ncl := eoc], clst, ncl);
    }
  }

  lemma CountDown(t: Table, clst: nat, ncl: nat, eoc: nat, n: nat)
    requires (clst == 0 || (IsCluster(t, clst) && t[clst] >= |t|)) && n > 0
    requires IsCluster(t, ncl) && t[ncl] == 0 && eoc >= |t|
    ensures CountIs(n, t) ==> CountIs(if n <= |t| - 2 then n - 1 else n, Stretched(t, clst, ncl, eoc))
  {
    TakeOne(t, ncl, eoc);
    if clst != 0 {
      KeepFree(t[ncl := eoc], clst, ncl);
    }
  }

  /** The two writes of create_chain. */
  method ClaimAndLink(fs: FatFs, clst: nat, ncl: nat, ghost good: bool) returns (res: FResult)
    requires fs.Valid() && IsCluster(fs.Table(), ncl) && fs.Table()[ncl] == 0
    requires clst == 0 || (IsCluster(fs.Table(), clst) && fs.Table()[clst] >= fs.g.nFatent)
    requires good ==> ValidStretch(fs.Table(), clst)
    modifies fs`disk, fs`writesOk, fs`faults, fs`wflag, fs`win, fs`winsect, fs`log
    ensures fs.Valid() && Quiet(fs.g, old(fs.Now()), fs.Now())
    ensures res == FR_OK || res == FR_DISK_ERR
    ensures res == FR_OK ==> fs.Table() == Stretched(old(fs.Table()), clst, ncl, Eoc(fs.g))
    ensures old(fs.log) <= fs.log && (good ==> AllGood(fs.log, |old(fs.log)|))
    ensures fs.faults >= old(fs.faults) && (res == FR_DISK_ERR ==> fs.faults > old(fs.faults))
  {
    EocEnds(fs.g);
    ClusterFits(fs.g, ncl);
    hide Geometry.Ok, Geometry.Modulus, Same, Decoded, Put, Quiet, WellFormed, AllGood;
    ghost var t0, img0, log0 := fs.Table(), fs.Now(), fs.log;
    NothingLogged(log0);
    if good { StretchKeeps(t0, clst, ncl, Eoc(fs.g)); }
    hide ValidStretch;
    res := fs.PutFat(ncl, 0xFFFF_FFFF);
    if res == FR_OK {
      if good { AllGoodGrows(log0, |log0|, fs.Table()); }
      if clst != 0 {
        ghost var img, log := fs.Now(), fs.log;
        res := fs.PutFat(clst, ncl);
        QuietTrans(fs.g, img0, img, fs.Now());
        if res == FR_OK && good { AllGoodGrows(log, |log0|, fs.Table()); }
      }
    }
  }

  ghost predicate HasBadEntry(t: Table) {
    exists c :: IsCluster(t, c) && t[c] == 1
  }

  /** The part of create_chain after the checks: search, claim, link, update the counts. */
  method Allocate(fs: FatFs, clst: nat) returns (ncl: nat)
    requires fs.Valid()
    requires clst == 0 || (IsCluster(fs.Table(), clst) && fs.Table()[clst] >= fs.g.nFatent)
    modifies fs
    ensures fs.Valid() && Quiet(fs.g, old(fs.Now()), fs.Now())
    ensures ncl <= 1 ==> fs.Table() == old(fs.Table()) && fs.freeClst == old(fs.freeClst) && fs.log == old(fs.log)
    ensures ncl == 0 ==> old(fs.freeClst) == 0 || FreeSet(old(fs.Table())) == {}
    ensures ncl == 1 ==> HasBadEntry(old(fs.Table()))
    ensures 2 <= ncl && ncl != DISK_ERROR ==>
              && Chosen(old(fs.Table()), clst, old(fs.lastClst), ncl) && fs.lastClst == ncl
              && fs.Table() == Stretched(old(fs.Table()), clst, ncl, Eoc(fs.g))
    ensures old(fs.log) <= fs.log && (ValidStretch(old(fs.Table()), clst) ==> AllGood(fs.log, |old(fs.log)|))
    ensures CountIs(old(fs.freeClst), old(fs.Table())) && ncl != DISK_ERROR ==> CountIs(fs.freeClst, fs.Table())
    ensures fs.faults >= old(fs.faults) && (ncl == DISK_ERROR ==> fs.faults > old(fs.faults))
  {
    fs.ValidImage();
    EocEnds(fs.g);
    SmallVolume(fs.g);
    hide Geometry.Ok, Same, Decoded, Put, Quiet, AllGood, WellFormed, Chosen, Stretched, CountIs, Eoc, HasBadEntry,
        FreeSet, FatFs.Valid, FatFs.Img;
    ghost var t0, img0, log0 := fs.Table(), fs.Now(), fs.log;
    QuietRefl(fs.g, img0);
    NothingLogged(log0);
    if fs.freeClst == 0 {
      return 0;
    }
    ncl := PickCluster(fs, clst);
    if ncl <= 1 || ncl == DISK_ERROR {
      return;
    }
    ChosenFree(t0, clst, fs.lastClst, ncl);
    ghost var img := fs.Now();
    var res := Commit(fs, clst, ncl);
    QuietTrans(fs.g, img0, img, fs.Now());
    if res != FR_OK {
      ncl := DISK_ERROR;
    }
  }

  /** Writes the entries and, when that worked, the allocation data. */
  method Commit(fs: FatFs, clst: nat, ncl: nat) returns (res: FResult)
    requires fs.Valid() && IsCluster(fs.Table(), ncl) && fs.Table()[ncl] == 0 && fs.freeClst > 0
    requires clst == 0 || (IsCluster(fs.Table(), clst) && fs.Table()[clst] >= fs.g.nFatent)
    modifies fs
    ensures fs.Valid() && Quiet(fs.g, old(fs.Now()), fs.Now())
    ensures res == FR_OK || res == FR_DISK_ERR
    ensures res == FR_OK ==> fs.Table() == Stretched(old(fs.Table()), clst, ncl, Eoc(fs.g)) && fs.lastClst == ncl
    ensures old(fs.log) <= fs.log && (ValidStretch(old(fs.Table()), clst) ==> AllGood(fs.log, |old(fs.log)|))
    ensures CountIs(old(fs.freeClst), old(fs.Table())) && res == FR_OK ==> CountIs(fs.freeClst, fs.Table())
    ensures fs.faults >= old(fs.faults) && (res == FR_DISK_ERR ==> fs.faults > old(fs.faults))
  {
    fs.ValidImage();
    EocEnds(fs.g);
    hide Geometry.Ok, Geometry.Modulus, Same, Decoded, Put, Quiet, AllGood, WellFormed, Stretched, CountIs, Eoc,
        ValidStretch, FatFs.Valid, FatFs.Table, IsImage, IsCluster;
    CountDown(fs.Table(), clst, ncl, Eoc(fs.g), fs.freeClst);
    res := ClaimAndLink(fs, clst, ncl, ValidStretch(fs.Table(), clst));
    if res == FR_OK {
      NoteTaken(fs, ncl);
    }
  }

  /** Updates the allocation data kept for FSINFO. */
  method NoteTaken(fs: FatFs, ncl: nat)
    requires fs.g.nFatent >= 2 && fs.freeClst > 0
    modifies fs`lastClst, fs`freeClst, fs`fsiFlag
    ensures fs.lastClst == ncl
    ensures fs.freeClst == if old(fs.freeClst) <= fs.g.nFatent - 2 then old(fs.freeClst) - 1 else old(fs.freeClst)
  {
    fs.lastClst := ncl;
    if fs.freeClst <= fs.g.nFatent - 2 {
      fs.freeClst := fs.freeClst - 1;
    }
    fs.fsiFlag := true;
  }

  /** create_chain: follows the chain if it goes on, else allocates. 0 means no free cluster, 1 an
      insane argument or entry, 0xFFFFFFFF a disk error. */
  method CreateChain(fs: FatFs, clst: nat) returns (ncl: nat)
    requires fs.Valid()
    modifies fs
    ensures fs.Valid() && Quiet(fs.g, old(fs.Now()), fs.Now())
    ensures ncl <= 1 ==> fs.Table() == old(fs.Table()) && fs.freeClst == old(fs.freeClst) && fs.log == old(fs.log)
    ensures ncl == 0 ==> old(fs.freeClst) == 0 || FreeSet(old(fs.Table())) == {}
    ensures ncl == 1 ==> Insane(old(fs.Table()), clst) || HasBadEntry(old(fs.Table()))
    ensures Insane(old(fs.Table()), clst) ==> ncl == 1 || ncl == DISK_ERROR
    ensures Links(old(fs.Table()), clst) ==>
              && (ncl == old(fs.Table())[clst] || ncl == DISK_ERROR)
              && fs.Table() == old(fs.Table()) && fs.freeClst == old(fs.freeClst) && fs.log == old(fs.log)
    ensures 2 <= ncl && ncl != DISK_ERROR && !Links(old(fs.Table()), clst) ==>
              && Chosen(old(fs.Table()), clst, old(fs.lastClst), ncl) && fs.lastClst == ncl
              && fs.Table() == Stretched(old(fs.Table()), clst, ncl, Eoc(fs.g))
    ensures old(fs.log) <= fs.log && (ValidStretch(old(fs.Table()), clst) ==> AllGood(fs.log, |old(fs.log)|))
    ensures CountIs(old(fs.freeClst), old(fs.Table())) && ncl != DISK_ERROR ==> CountIs(fs.freeClst, fs.Table())
    ensures Allocating(old(fs.Table()), clst, old(fs.freeClst)) && ncl != DISK_ERROR ==>
            (ncl == 0 <==> FreeSet(old(fs.Table())) == {})
    ensures fs.faults >= old(fs.faults) && (ncl == DISK_ERROR ==> fs.faults > old(fs.faults))
  {
    FullWhenZero(fs.Table(), clst, fs.freeClst);
    NoneChosen(fs.Table(), clst, fs.lastClst);
    SmallVolume(fs.g);
    hide Geometry.Ok, Same, Decoded, Put, Quiet, AllGood, WellFormed, Chosen, Stretched, CountIs, Eoc, ValidStretch,
        HasBadEntry, FreeSet;
    ghost var img0 := fs.Now();
    QuietRefl(fs.g, img0);
    NothingLogged(fs.log);
    if clst != 0 {
      var cs := fs.GetFat(clst);
      if cs < 2 {
        return 1;
      }
      if cs == DISK_ERROR || cs < fs.g.nFatent {
        return cs;
      }
    }
    ghost var img := fs.Now();
    ncl := Allocate(fs, clst);
    QuietTrans(fs.g, img0, img, fs.Now());
  }

  /** A call that must allocate: the argument ends a chain or is 0, no entry reads 1, and the cached
      free count is right or unknown. */
  ghost predicate Allocating(t: Table, clst: nat, free: nat) {
    !Insane(t, clst) && !Links(t, clst) && !HasBadEntry(t) && CountIs(free, t)
  }

  lemma FullWhenZero(t: Table, clst: nat, free: nat)
    requires |t| >= 2
    ensures Allocating(t, clst, free) && free == 0 ==> FreeSet(t) == {}
  {
  }

  lemma NoneChosen(t: Table, clst: nat, last: nat)
    ensures FreeSet(t) == {} ==> forall ncl :: !Chosen(t, clst, last, ncl)
  {
    assert forall c: nat :: IsCluster(t, c) && t[c] == 0 ==> c in FreeSet(t);
    forall ncl | Chosen(t, clst, last, ncl)
      ensures FreeSet(t) != {}
    {
      ChosenFree(t, clst, last, ncl);
    }
  }

  /** A cluster number to stretch that is no cluster, or is free or marked 1. */
  predicate Insane(t: Table, clst: nat) {
    clst != 0 && (!IsCluster(t, clst) || t[clst] < 2)
  }

  /** What an allocation does to the table, entry by entry: the cluster after clst if that is free (cluster 2 after
      the last one), else the first free one met going up from the last allocation and around, gets the
      end-of-chain value and clst is linked to it. */
  lemma AllocationIs(g: Geometry, t: Table, clst: nat, last: nat, ncl: nat)
    requires |t| == g.nFatent >= 3 && Chosen(t, clst, last, ncl) && (clst == 0 || (IsCluster(t, clst) && t[clst] != 0))
    ensures clst != 0 && clst + 1 < |t| && t[clst + 1] == 0 ==> ncl == clst + 1
    ensures clst != 0 && clst + 1 == |t| && t[2] == 0 ==> ncl == 2
    ensures clst == 0 || t[if clst + 1 < |t| then clst + 1 else 2] != 0 ==>
              var s := if 2 <= last < |t| then last else if clst != 0 then clst else 1;
              if ncl > s then forall c :: s < c < ncl ==> t[c] != 0
              else (forall c :: s < c < |t| ==> t[c] != 0) && forall c :: 2 <= c < ncl ==> t[c] != 0
    ensures var u := Stretched(t, clst, ncl, Eoc(g));
      && |u| == |t| && u[ncl] == (match g.kind case FAT12 => 0xFFF case FAT16 => 0xFFFF case FAT32 => 0xFFF_FFFF)
      && (clst != 0 ==> u[clst] == ncl)
      && forall c :: 0 <= c < |t| && c != ncl && (clst == 0 || c != clst) ==> u[c] == t[c]
  {
  }

  lemma ChosenFree(t: Table, clst: nat, last: nat, ncl: nat)
    requires Chosen(t, clst, last, ncl)
    ensures IsCluster(t, ncl) && t[ncl] == 0
  {
  }
}
