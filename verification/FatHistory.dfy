/** Runs of create_chain and remove_chain calls of Externals/FatFs/ff.c on one volume. */
module FatHistory {
  import opened FatTable
  import opened FatVolume
  import opened FatChains

  datatype Call = Create(clst: nat) | Remove(clst: nat, pclst: nat)

  /** Arguments a caller may give: a new chain or a cluster of a chain to stretch; a chain without
      predecessor, or a link of a chain with its predecessor, to remove. */
  ghost predicate ValidCall(t: Table, c: Call) {
    match c
    case Create(clst) => ValidStretch(t, clst)
    case Remove(clst, pclst) => ValidRemoval(t, clst, pclst)
  }

  /** Every call up to the n-th had valid arguments. */
  ghost predicate ValidCalls(ts: seq<Table>, cs: seq<Call>, n: nat) {
    forall i :: 0 <= i < n && i < |ts| && i < |cs| ==> ValidCall(ts[i], cs[i])
  }

  /** One call, with all it keeps. */
  method Perform(fs: FatFs, c: Call) returns (ok: bool)
    requires fs.Valid()
    modifies fs
    ensures fs.Valid() && old(fs.log) <= fs.log
    ensures ValidCall(old(fs.Table()), c) ==> AllGood(fs.log, |old(fs.log)|) && (ok ==> WellFormed(fs.Table()))
    ensures fs.faults >= old(fs.faults)
    ensures !ok && ValidCall(old(fs.Table()), c) ==> fs.faults > old(fs.faults)
    ensures ok && ValidCall(old(fs.Table()), c) && CountIs(old(fs.freeClst), old(fs.Table())) ==>
            CountIs(fs.freeClst, fs.Table())
  {
    hide WellFormed, CountIs, AllGood, RemoveFrom, Cut, ValidStretch, ValidRemoval, FatFs.Table, FatFs.Valid, Quiet;
    ghost var t, last := fs.Table(), fs.lastClst;
    match c {
      case Create(clst) =>
        var ncl := CreateChain(fs, clst);
        ok := ncl != DISK_ERROR;
        if ok && ValidStretch(t, clst) {
          fs.ValidImage();
          Created(fs.g, t, clst, last, ncl, fs.Table());
        }
      case Remove(clst, pclst) =>
        if ValidRemoval(t, clst, pclst) {
          fs.ValidImage();
          RemovalSucceeds(fs.g, t, clst, pclst);
        }
        var res := RemoveChain(fs, clst, pclst);
        ok := res == FR_OK;
    }
  }

  lemma Created(g: Geometry, t: Table, clst: nat, last: nat, ncl: nat, t': Table)
    requires g.Ok() && |t| == g.nFatent && ValidStretch(t, clst) && ncl != DISK_ERROR
    requires ncl <= 1 ==> t' == t
    requires Links(t, clst) ==> t' == t
    requires 2 <= ncl && !Links(t, clst) ==> Chosen(t, clst, last, ncl) && t' == Stretched(t, clst, ncl, Eoc(g))
    requires Insane(t, clst) ==> ncl == 1
    ensures WellFormed(t')
  {
    hide WellFormed, Chosen, Stretched, Geometry.Ok, Eoc;
    EocEnds(g);
    if 2 <= ncl && !Links(t, clst) {
      ChosenFree(t, clst, last, ncl);
      StretchKeeps(t, clst, ncl, Eoc(g));
    }
  }

  /** On valid arguments the walk of remove_chain ends at the end of the chain. */
  lemma RemovalSucceeds(g: Geometry, t: Table, clst: nat, pclst: nat)
    requires g.Ok() && |t| == g.nFatent && ValidRemoval(t, clst, pclst)
    ensures IsCluster(t, clst) && (pclst == 0 || IsCluster(t, pclst))
    ensures RemoveFrom(Cut(t, pclst, Eoc(g)), clst).1
  {
    EocEnds(g);
    hide Geometry.Ok, RemoveFrom, Eoc;
    if t[clst] == 0 {
      CutFree(t, clst, pclst, Eoc(g));
    } else {
      var r :| Ranks(t, r);
      var ch := ChainExists(t, r, clst);
      RemovesExactly(t, ch, pclst, Eoc(g));
    }
  }

  lemma CutFree(t: Table, clst: nat, pclst: nat, eoc: nat)
    requires ValidRemoval(t, clst, pclst) && t[clst] == 0 && eoc >= |t|
    ensures RemoveFrom(Cut(t, pclst, eoc), clst).1
  {
  }

  /** Any sequence of calls, up to the first disk error or refusal: when all arguments were valid, every
      table written is well formed, and a right or unknown count of free clusters stays so. */
  method PerformAll(fs: FatFs, cs: seq<Call>) returns (done: nat, ghost ts: seq<Table>)
    requires fs.Valid()
    modifies fs
    ensures fs.Valid() && old(fs.log) <= fs.log && done <= |cs| && |ts| == done + 1
    ensures ts[0] == old(fs.Table()) && (done == |cs| ==> ts[done] == fs.Table())
    ensures ValidCalls(ts, cs, done + 1) ==> AllGood(fs.log, |old(fs.log)|)
    ensures ValidCalls(ts, cs, done + 1) && fs.faults == old(fs.faults) ==> done == |cs|
    ensures ValidCalls(ts, cs, done + 1) && WellFormed(ts[0]) ==> forall i :: 0 <= i <= done ==> WellFormed(ts[i])
    ensures ValidCalls(ts, cs, done + 1) && done == |cs| && CountIs(old(fs.freeClst), ts[0]) ==>
            CountIs(fs.freeClst, ts[done])
  {
    hide WellFormed, CountIs, AllGood, ValidCall, FatFs.Table, FatFs.Valid;
    done, ts := 0, [fs.Table()];
    NothingLogged(fs.log);
    while done < |cs|
      invariant fs.Valid() && old(fs.log) <= fs.log && done <= |cs| && |ts| == done + 1
      invariant ts[0] == old(fs.Table()) && ts[done] == fs.Table() && fs.faults >= old(fs.faults)
      invariant ValidCalls(ts, cs, done) ==> AllGood(fs.log, |old(fs.log)|)
      invariant ValidCalls(ts, cs, done) && WellFormed(ts[0]) ==> forall i :: 0 <= i <= done ==> WellFormed(ts[i])
      invariant ValidCalls(ts, cs, done) && CountIs(old(fs.freeClst), ts[0]) ==> CountIs(fs.freeClst, ts[done])
    {
      ghost var log := fs.log;
      assert ValidCalls(ts, cs, done + 1) ==> ValidCalls(ts, cs, done) && ValidCall(ts[done], cs[done]);
      var ok := Perform(fs, cs[done]);
      if ValidCalls(ts, cs, done + 1) {
        AllGoodJoins(old(fs.log), log, fs.log);
      }
      if !ok {
        return;
      }
      ghost var more := ts + [fs.Table()];
      assert ValidCalls(more, cs, done + 1) ==> ValidCalls(ts, cs, done + 1);
      done, ts := done + 1, more;
    }
  }
}
