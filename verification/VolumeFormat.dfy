/** Formatting and mounting in Externals/FatFs/ff.c: the geometry loop of f_mkfs, the boot sector it
    writes, and the checks and calculations check_fs and mount_volume make on it. */
module VolumeFormat {
  import opened Radix
  import opened FatTable

  const MAX_FAT12: nat := 0xFF5
  const MAX_FAT16: nat := 0xFFF5
  const MAX_FAT32: nat := 0x0FFF_FFF5

  /** DWORD arithmetic. */
  function Mod32(x: int): nat {
    x % 0x1_0000_0000
  }

  predicate PowerUpTo128(n: int) {
    n in {1, 2, 4, 8, 16, 32, 64, 128}
  }

  /** The volume and the options, as f_mkfs has normalized them before the loop. */
  datatype Request = Request(bVol: nat, szVol: nat, nFat: nat, nRoot: nat, blk: nat, allow32: bool)
  {
    predicate Valid() {
      && 128 <= szVol && bVol + szVol < 0x1_0000_0000
      && (nFat == 1 || nFat == 2) && 16 <= nRoot <= 32768 && nRoot % 16 == 0
      && blk in {1, 2, 4, 8, 16, 32, 64, 128, 256, 512, 1024, 2048, 4096, 8192, 16384, 32768}
    }
  }

  /** What the loop settles on. */
  datatype Plan = Plan(kind: FatType, pau: nat, nClst: nat, szFat: nat, szRsv: nat, szDir: nat)
  {
    /** Sectors before the data area. */
    function Overhead(nFat: nat): nat {
      szRsv + szFat * nFat + szDir
    }
  }

  datatype Verdict = Settled(plan: Plan) | Again(kind: FatType, szAu: nat) | Aborted

  const CST: seq<nat> := [1, 4, 16, 64, 256, 512, 0]
  const CST32: seq<nat> := [1, 2, 4, 8, 16, 32, 0]

  /** How many of the ascending boundaries, from the i-th on, n reaches. */
  function Reached(table: seq<nat>, n: nat, i: nat): (k: nat)
    requires i < |table| && table[|table| - 1] == 0
    ensures i <= k < |table|
    decreases |table| - i
  {
    if table[i] != 0 && table[i] <= n then Reached(table, n, i + 1) else i
  }

  /** AU auto-selection: doubles for every boundary the size reaches. */
  method SelectAu(table: seq<nat>, n: nat) returns (pau: nat)
    requires |table| == 7 && table[6] == 0
    ensures pau == Pow2(Reached(table, n, 0)) && PowerUpTo128(pau) && pau <= 64
  {
    var i := 0;
    pau := 1;
    while table[i] != 0 && table[i] <= n
      invariant i <= 6 && pau == Pow2(i) && Reached(table, n, i) == Reached(table, n, 0)
      invariant PowerUpTo128(pau)
      decreases 6 - i
    {
      assert Pow2(0) == 1 && Pow2(1) == 2 && Pow2(2) == 4 && Pow2(3) == 8 && Pow2(4) == 16 && Pow2(5) == 32
          && Pow2(6) == 64;
      i, pau := i + 1, pau * 2;
    }
    assert Pow2(0) == 1 && Pow2(1) == 2 && Pow2(2) == 4 && Pow2(3) == 8 && Pow2(4) == 16 && Pow2(5) == 32
        && Pow2(6) == 64;
  }

  /** First estimate: sub-type, number of clusters and sizes before alignment. */
  datatype Draft = Draft(kind: FatType, pau: nat, nClst: nat, szFat: nat, szRsv: nat, szDir: nat)

  /** Whole clusters in n sectors. */
  function Clusters(n: nat, pau: nat): nat
    requires pau > 0
  {
    n / pau
  }

  /** The cluster size of a round: the one asked for, or by the size of the volume. */
  function Au(kind: FatType, v: nat, szAu: nat): (pau: nat)
    requires szAu == 0 || PowerUpTo128(szAu)
    ensures PowerUpTo128(pau) && (szAu == 0 ==> pau <= 64)
  {
    var i := if kind == FAT32 then Reached(CST32, v / 0x2_0000, 0) else Reached(CST, v / 0x1000, 0);
    assert Pow2(0) == 1 && Pow2(1) == 2 && Pow2(2) == 4 && Pow2(3) == 8 && Pow2(4) == 16 && Pow2(5) == 32
        && Pow2(6) == 64;
    if szAu != 0 then szAu else Pow2(i)
  }

  /** The first estimate of a round. */
  function DraftOf(r: Request, kind: FatType, szAu: nat): Draft
    requires szAu == 0 || PowerUpTo128(szAu)
  {
    var pau := Au(kind, r.szVol, szAu);
    var c := Clusters(r.szVol, pau);
    if kind == FAT32 then Draft(FAT32, pau, c, Mod32(c * 4 + 519) / 512, 32, 0)
    else if c > MAX_FAT12 then Draft(kind, pau, c, Mod32(Mod32(c * 2 + 4) + 511) / 512, 1, r.nRoot / 16)
    else Draft(FAT12, pau, c, ((c * 3 + 1) / 2 + 514) / 512, 1, r.nRoot / 16)
  }

  /** The first half of a round for FAT32. */
  method Estimate32(r: Request, szAu: nat) returns (ok: bool, d: Draft)
    requires szAu == 0 || PowerUpTo128(szAu)
    ensures PowerUpTo128(d.pau) && (szAu == 0 ==> d.pau <= 64) && (szAu != 0 ==> d.pau == szAu)
    ensures d.kind == FAT32 && d.nClst == Clusters(r.szVol, d.pau) && d.szRsv == 32 && d.szDir == 0
    ensures d == DraftOf(r, FAT32, szAu) && (ok <==> MAX_FAT16 < d.nClst <= MAX_FAT32)
    ensures ok ==> d.szFat == (d.nClst * 4 + 519) / 512
  {
    hide Clusters, Pow2;
    var pau := szAu;
    if pau == 0 {
      pau := SelectAu(CST32, r.szVol / 0x2_0000);
    }
    var nClst := Clusters(r.szVol, pau);
    d := Draft(FAT32, pau, nClst, Mod32(nClst * 4 + 8 + 511) / 512, 32, 0);
    ok := !(nClst <= MAX_FAT16 || nClst > MAX_FAT32);
  }

  /** The same for FAT12 and FAT16; the sub-type becomes FAT12 when there are few clusters. */
  method Estimate16(r: Request, fsty: FatType, szAu: nat) returns (d: Draft)
    requires fsty != FAT32 && (szAu == 0 || PowerUpTo128(szAu)) && r.nRoot % 16 == 0
    ensures PowerUpTo128(d.pau) && (szAu == 0 ==> d.pau <= 64) && (szAu != 0 ==> d.pau == szAu)
    ensures d.nClst == Clusters(r.szVol, d.pau) && d.szRsv == 1 && d.szDir == r.nRoot / 16
    ensures d.nClst > MAX_FAT12 ==> d.kind == fsty && d.szFat == Mod32(Mod32(d.nClst * 2 + 4) + 511) / 512
    ensures d.nClst <= MAX_FAT12 ==> d.kind == FAT12 && d.szFat == ((d.nClst * 3 + 1) / 2 + 514) / 512
    ensures d == DraftOf(r, fsty, szAu)
  {
    hide Clusters, Mod32, Pow2;
    RootSectors(r.nRoot);
    var pau := szAu;
    if pau == 0 {
      pau := SelectAu(CST, r.szVol / 0x1000);
    }
    var nClst := Clusters(r.szVol, pau);
    var kind, n := fsty, 0;
    if nClst > MAX_FAT12 {
      n := Mod32(nClst * 2 + 4);
    } else {
      kind := FAT12;
      n := (nClst * 3 + 1) / 2 + 3;
      SmallMod(n + 511);
    }
    d := Draft(kind, pau, nClst, Mod32(n + 511) / 512, 1, r.nRoot * 32 / 512);
  }

  lemma RootSectors(nRoot: nat)
    requires nRoot % 16 == 0
    ensures nRoot * 32 / 512 == nRoot / 16
  {
  }

  /** Sectors from b up to the next multiple of blk. */
  function ToBoundary(b: nat, blk: nat): nat
    requires blk > 0
  {
    var up := Mod32(b + blk - 1);
    Mod32(up - up % blk - b)
  }

  /** The second half: the data area aligned, clusters counted again. */
  function Align(r: Request, d: Draft): (p: Plan)
    requires r.Valid() && PowerUpTo128(d.pau)
  {
    var n := ToBoundary(Mod32(r.bVol + d.szRsv + d.szFat * r.nFat + d.szDir), r.blk);
    var odd: nat := if d.kind != FAT32 && n % r.nFat != 0 then 1 else 0;
    var szRsv := if d.kind == FAT32 then d.szRsv + n else d.szRsv + odd;
    var szFat := if d.kind == FAT32 then d.szFat else d.szFat + (n - odd) / r.nFat;
    Plan(d.kind, d.pau, Clusters(Mod32(r.szVol - szRsv - szFat * r.nFat - d.szDir), d.pau), szFat, szRsv, d.szDir)
  }

  /** What the first half guarantees. */
  ghost predicate Drafted(r: Request, d: Draft) {
    && PowerUpTo128(d.pau) && d.nClst == Clusters(r.szVol, d.pau)
    && if d.kind == FAT32 then
         d.szRsv == 32 && d.szDir == 0 && MAX_FAT16 < d.nClst <= MAX_FAT32 && d.szFat == (d.nClst * 4 + 519) / 512
       else
         && d.szRsv == 1 && d.szDir == r.nRoot / 16
         && if d.nClst > MAX_FAT12 then d.szFat == Mod32(Mod32(d.nClst * 2 + 4) + 511) / 512
            else d.kind == FAT12 && d.szFat == ((d.nClst * 3 + 1) / 2 + 514) / 512
  }

  /** The size check is exact: nothing wraps. */
  lemma NoWrap(r: Request, d: Draft)
    requires r.Valid() && Drafted(r, d)
    ensures Mod32(r.bVol + d.szRsv + d.szFat * r.nFat + d.szDir + d.pau * 16 - r.bVol) == d.szRsv
        + d.szFat * r.nFat + d.szDir + d.pau * 16
  {
    FatSmall(r, d);
    hide Clusters, Mod32, Drafted;
    SmallMod(d.szRsv + d.szFat * r.nFat + d.szDir + d.pau * 16);
  }

  lemma FatSmall(r: Request, d: Draft)
    requires r.Valid() && Drafted(r, d)
    ensures d.szFat <= 0x100_0000 && d.szRsv <= 32 && d.szDir <= 2048 && d.pau <= 128
  {
    hide Clusters;
  }

  lemma SmallMod(x: int)
    requires 0 <= x < 0x1_0000_0000
    ensures Mod32(x) == x
  {
  }

  /** Sectors before the data area, and sixteen clusters, as the size check demands. */
  predicate LargeEnough(r: Request, d: Draft) {
    r.szVol >= d.szRsv + d.szFat * r.nFat + d.szDir + d.pau * 16
  }

  /** What a round comes to. */
  function RoundOf(r: Request, kind: FatType, szAu: nat): (v: Verdict)
    requires r.Valid() && (szAu == 0 || PowerUpTo128(szAu))
    ensures v.Again? ==> (v.szAu == 0 || PowerUpTo128(v.szAu)) && Measure(v.kind, v.szAu) < Measure(kind, szAu)
  {
    var d := DraftOf(r, kind, szAu);
    if kind == FAT32 && !(MAX_FAT16 < d.nClst <= MAX_FAT32) then Aborted
    else if !LargeEnough(r, d) then Aborted
    else Judge(r, Align(r, d), szAu)
  }

  datatype Choice = Chosen(draft: Draft) | NoChoice

  /** What the loop comes to: the estimate it settles on, if any. */
  function Outcome(r: Request, kind: FatType, szAu: nat): (o: Choice)
    requires r.Valid() && (szAu == 0 || PowerUpTo128(szAu))
    ensures o.Chosen? ==> PowerUpTo128(o.draft.pau)
    decreases Measure(kind, szAu)
  {
    match RoundOf(r, kind, szAu)
    case Aborted => NoChoice
    case Again(k, au) => Outcome(r, k, au)
    case Settled(_) => Chosen(DraftOf(r, kind, szAu))
  }

  /** One round of the loop. */
  method Round(r: Request, fsty: FatType, szAu: nat) returns (v: Verdict, d: Draft)
    requires r.Valid() && (szAu == 0 || PowerUpTo128(szAu))
    ensures v.Again? ==> (v.szAu == 0 || PowerUpTo128(v.szAu)) && Measure(v.kind, v.szAu) < Measure(fsty, szAu)
    ensures v == RoundOf(r, fsty, szAu) && d == DraftOf(r, fsty, szAu)
    ensures v.Settled? ==> Drafted(r, d) && LargeEnough(r, d) && v == Judge(r, Align(r, d), szAu)
  {
    hide DraftOf;
    var ok := true;
    if fsty == FAT32 {
      ok, d := Estimate32(r, szAu);
    } else {
      d := Estimate16(r, fsty, szAu);
    }
    if !ok {
      return Aborted, d;
    }
    NoWrap(r, d);
    hide Align, Drafted, Clusters;
    var p := Align(r, d);
    if r.szVol < Mod32(r.bVol + d.szRsv + d.szFat * r.nFat + d.szDir + d.pau * 16 - r.bVol) {
      return Aborted, d;
    }
    v := Judge(r, p, szAu);
  }

  /** Rounds left: one for a cluster size still to be chosen, one for the step to FAT32. */
  function Measure(kind: FatType, szAu: nat): nat {
    (if szAu == 0 then 1 else 0) + (if kind == FAT32 then 0 else 1)
  }

  /** The final check of the sub-type. */
  function Judge(r: Request, p: Plan, szAu: nat): Verdict {
    match p.kind
    case FAT32 =>
      if p.nClst > MAX_FAT16 then Settled(p)
      else if szAu == 0 && p.pau / 2 != 0 then Again(FAT32, p.pau / 2)
      else Aborted
    case FAT16 =>
      if p.nClst > MAX_FAT16 then
        if szAu == 0 && p.pau * 2 <= 64 then Again(FAT16, p.pau * 2)
        else if r.allow32 then Again(FAT32, szAu)
        else if szAu == 0 && p.pau * 2 <= 128 then Again(FAT16, p.pau * 2)
        else Aborted
      else if p.nClst <= MAX_FAT12 then
        if szAu == 0 && p.pau * 2 <= 128 then Again(FAT16, p.pau * 2) else Aborted
      else Settled(p)
    case FAT12 =>
      if p.nClst > MAX_FAT12 then Aborted else Settled(p)
  }

  // ------------------------------------------------------------ what the plan is good for

  /** Every quantity fits the field of the boot sector it goes to and agrees with what mounting derives. */
  ghost predicate Good(r: Request, p: Plan) {
    && r.Valid() && PowerUpTo128(p.pau) && p.Overhead(r.nFat) <= r.szVol
        && p.nClst == Clusters(r.szVol - p.Overhead(r.nFat), p.pau)
    && 1 <= p.szRsv <= 0xFFFF && 1 <= p.szFat && (p.kind != FAT32 ==> p.szFat <= 0xFFFF)
    && p.szDir == (if p.kind == FAT32 then 0 else r.nRoot / 16)
    && InRange(p.kind, p.nClst) && (EntryBytes(p.kind, p.nClst + 2) + 511) / 512 <= p.szFat
    && (r.bVol + p.Overhead(r.nFat)) % r.blk == 0
  }

  /** Numbers of clusters of a sub-type; FAT12 includes the degenerate 0. */
  predicate InRange(kind: FatType, n: nat) {
    match kind
    case FAT12 => n <= MAX_FAT12
    case FAT16 => MAX_FAT12 < n <= MAX_FAT16
    case FAT32 => MAX_FAT16 < n <= MAX_FAT32
  }

  lemma BoundaryAt(b: nat, blk: nat)
    requires b < 0x1_0000_0000 && blk in {1, 2, 4, 8, 16, 32, 64, 128, 256, 512, 1024, 2048, 4096, 8192, 16384, 32768}
    ensures ToBoundary(b, blk) < blk && (b + ToBoundary(b, blk)) % blk == 0
  {
    var q := 0x1_0000_0000 / blk;
    assert 0x1_0000_0000 == q * blk by {
      if blk <= 16 {
        if blk == 1 {} else if blk == 2 {} else if blk == 4 {} else if blk == 8 {} else {}
      } else if blk <= 512 {
        if blk == 32 {} else if blk == 64 {} else if blk == 128 {} else if blk == 256 {} else {}
      } else {
        if blk == 1024 {} else if blk == 2048 {} else if blk == 4096 {} else if blk == 8192 {} else if blk == 16384 {} else {}
      }
    }
    BoundaryIn(b, blk, q);
  }

  lemma BoundaryIn(b: nat, blk: nat, q: nat)
    requires b < 0x1_0000_0000 && 0 < blk <= 0x8000 && 0x1_0000_0000 == q * blk
    ensures ToBoundary(b, blk) < blk && (b + ToBoundary(b, blk)) % blk == 0
  {
    var up := Mod32(b + blk - 1);
    var t := up % blk;
    if b + blk - 1 < 0x1_0000_0000 {
      Multiple(up / blk, blk, up);
      SmallMod(blk - 1 - t);
      assert up - t - b == blk - 1 - t;
    } else {
      QuotientIs(up, blk, 0, up);
      QuotientIs(0x1_0000_0000, blk, q, 0);
      NegativeMod(b);
    }
  }

  lemma NegativeMod(b: nat)
    requires 0 < b < 0x1_0000_0000
    ensures Mod32(0 - b) as int == 0x1_0000_0000 - b
  {
  }

  lemma Multiple(q: int, d: int, x: int)
    requires d > 0 && q == x / d
    ensures x - x % d == q * d && (x - x % d) % d == 0
  {
    QuotientIs(q * d, d, q, 0);
  }

  /** Aligning moves the data area by n sectors, neither more nor less. */
  lemma AlignOverhead(r: Request, d: Draft)
    requires r.Valid() && Drafted(r, d) && LargeEnough(r, d)
    ensures var n := ToBoundary(r.bVol + d.szRsv + d.szFat * r.nFat + d.szDir, r.blk); var p := Align(r, d);
            && p.Overhead(r.nFat) == d.szRsv + d.szFat * r.nFat + d.szDir + n && d.szRsv <= p.szRsv <= d.szRsv + n
                && d.szFat <= p.szFat <= d.szFat + n
            && p.szDir == d.szDir && p.kind == d.kind && p.pau == d.pau
            && p.nClst == Clusters(Mod32(r.szVol - p.Overhead(r.nFat)), p.pau)
  {
    hide Clusters, ToBoundary, Drafted;
    DraftPau(r, d);
  }

  lemma DraftPau(r: Request, d: Draft)
    requires Drafted(r, d)
    ensures PowerUpTo128(d.pau)
  {
  }

  // counting

  lemma CountLess(a: nat, b: nat, pau: nat)
    requires a <= b && pau > 0
    ensures Clusters(a, pau) <= Clusters(b, pau) <= Clusters(a, pau) + (b - a)
  {
    var x, m, e := a / pau, a % pau, b - a;
    var z, w := (m + e) / pau, (m + e) % pau;
    assert a == pau * x + m && m + e == pau * z + w;
    FewMore(pau, z, w, m, e);
    assert pau * (x + z) == pau * x + pau * z;
    QuotientIs(b, pau, x + z, w);
  }

  lemma FewMore(pau: nat, z: int, w: nat, m: nat, e: nat)
    requires pau > 0 && m < pau && w < pau && m + e == pau * z + w
    ensures 0 <= z <= e
  {
    if z >= 1 {
      var c := (pau - 1) * (z - 1);
      assert c >= 0;
      assert c == pau * z - pau - z + 1;
    } else if z < 0 {
      MulAtLeast(pau, -z);
      assert false;
    }
  }

  /** What wraps round below zero counts far more clusters than FAT16 can have. */
  lemma WrapsLarge(x: int, pau: nat)
    requires -0x8000 <= x < 0 && PowerUpTo128(pau)
    ensures Clusters(Mod32(x), pau) > MAX_FAT16
  {
    assert Mod32(x) >= 0xFFFF_8000;
    if pau <= 8 {
      if pau == 1 {} else if pau == 2 {} else if pau == 4 {} else {}
    } else {
      if pau == 16 {} else if pau == 32 {} else if pau == 64 {} else {}
    }
  }

  // FAT sizes suffice

  lemma Suffices32(n: nat, c: nat)
    requires n <= c
    ensures (EntryBytes(FAT32, n + 2) + 511) / 512 <= (c * 4 + 519) / 512
  {
  }

  lemma Suffices16(kind: FatType, n: nat, c: nat)
    requires n <= c && kind != FAT32
    ensures (EntryBytes(kind, n + 2) + 511) / 512 <= (c * 2 + 515) / 512
  {
  }

  lemma Suffices12(n: nat, c: nat)
    requires n <= c
    ensures (EntryBytes(FAT12, n + 2) + 511) / 512 <= ((c * 3 + 1) / 2 + 514) / 512
  {
  }

  /** On FAT32 alignment cannot eat up the volume. */
  lemma RoomFor32(v: nat, c: nat, nFat: nat, n: nat)
    requires MAX_FAT16 < c <= v && (nFat == 1 || nFat == 2) && n < 0x8000
    ensures 32 + (c * 4 + 519) / 512 * nFat + n <= v
  {
  }

  lemma AtLeastClusters(v: nat, pau: nat)
    requires pau > 0
    ensures Clusters(v, pau) <= v
  {
    CountLess(0, v, pau);
    QuotientIs(0, pau, 0, 0);
  }

  lemma Settles32(r: Request, d: Draft)
    requires r.Valid() && Drafted(r, d) && d.kind == FAT32 && LargeEnough(r, d)
    requires Align(r, d).nClst > MAX_FAT16
    ensures Good(r, Align(r, d))
  {
    hide Clusters, ToBoundary, Align, Drafted, EntryBytes, Plan.Overhead, Mod32, PowerUpTo128, Request.Valid;
    Parameters(r);
    Facts(r, d);
    SameFat(r, d);
    var o := d.szRsv + d.szFat * r.nFat + d.szDir;
    var n, p := ToBoundary(r.bVol + o, r.blk), Align(r, d);
    AlignOverhead(r, d);
    BoundaryAt(r.bVol + o, r.blk);
    AtLeastClusters(r.szVol, d.pau);
    RoomFor32(r.szVol, d.nClst, r.nFat, n);
    SmallMod(r.szVol - p.Overhead(r.nFat));
    CountLess(r.szVol - p.Overhead(r.nFat), r.szVol, d.pau);
    Suffices32(p.nClst, d.nClst);
  }

  lemma Parameters(r: Request)
    requires r.Valid()
    ensures (r.nFat == 1 || r.nFat == 2) && 0 < r.blk <= 0x8000 && r.bVol + r.szVol < 0x1_0000_0000
        && 1 <= r.nRoot / 16 <= 2048
    ensures r.blk in {1, 2, 4, 8, 16, 32, 64, 128, 256, 512, 1024, 2048, 4096, 8192, 16384, 32768}
  {
  }

  lemma Facts(r: Request, d: Draft)
    requires Drafted(r, d)
    ensures PowerUpTo128(d.pau) && 1 <= d.pau <= 128 && d.nClst == Clusters(r.szVol, d.pau)
    ensures d.kind == FAT32 ==>
            d.szRsv == 32 && d.szDir == 0 && MAX_FAT16 < d.nClst <= MAX_FAT32 && d.szFat == (d.nClst * 4 + 519) / 512
    ensures d.kind != FAT32 ==> d.szRsv == 1 && d.szDir == r.nRoot / 16
    ensures d.kind != FAT32 && d.nClst > MAX_FAT12 ==> d.szFat == Mod32(Mod32(d.nClst * 2 + 4) + 511) / 512
    ensures d.kind != FAT32 && d.nClst <= MAX_FAT12 ==>
            d.kind == FAT12 && d.szFat == ((d.nClst * 3 + 1) / 2 + 514) / 512 <= 13
  {
  }

  lemma SameFat(r: Request, d: Draft)
    requires r.Valid() && PowerUpTo128(d.pau) && d.kind == FAT32
    ensures Align(r, d).szFat == d.szFat
  {
  }

  /** With at most MAX_FAT16 clusters left the estimate cannot have been large, and nothing wrapped. */
  lemma EstimateBound(c: nat, n: nat, szFat: nat, nFat: nat, szDir: nat, align: nat)
    requires szFat == Mod32(Mod32(c * 2 + 4) + 511) / 512 && n <= MAX_FAT16 && szDir <= 2048 && align < 0x8000
        && (nFat == 1 || nFat == 2)
    requires c <= n + 1 + szFat * nFat + szDir + align
    ensures szFat == (c * 2 + 515) / 512 <= 400
  {
    assert szFat <= 0x80_0000;
    assert c < 0x200_0000;
    SmallMod(c * 2 + 4);
    SmallMod(c * 2 + 515);
  }

  lemma Settles16(r: Request, d: Draft)
    requires r.Valid() && Drafted(r, d) && d.kind != FAT32 && LargeEnough(r, d)
    requires InRange(d.kind, Align(r, d).nClst)
    ensures Good(r, Align(r, d))
  {
    hide Clusters, ToBoundary, Align, Drafted, EntryBytes, Plan.Overhead, Mod32, PowerUpTo128, Request.Valid;
    Parameters(r);
    Facts(r, d);
    FatSmall(r, d);
    var o := d.szRsv + d.szFat * r.nFat + d.szDir;
    var n, p := ToBoundary(r.bVol + o, r.blk), Align(r, d);
    AlignOverhead(r, d);
    BoundaryAt(r.bVol + o, r.blk);
    LeftOver(d.kind, r.szVol, p.Overhead(r.nFat), p.nClst, d.pau, n);
    CountLess(r.szVol - p.Overhead(r.nFat), r.szVol, d.pau);
    FatSuffices(d.kind, d.nClst, p.nClst, d.szFat, r.nFat, d.szDir, n);
  }

  /** With a proper number of clusters the overhead did not exceed the volume. */
  lemma LeftOver(kind: FatType, v: nat, o: nat, count: nat, pau: nat, n: nat)
    requires kind != FAT32 && InRange(kind, count) && PowerUpTo128(pau) && count == Clusters(Mod32(v - o), pau)
    requires v < 0x1_0000_0000 && n < 0x8000 && o <= v + n
    ensures o <= v && Mod32(v - o) == v - o
  {
    if o > v {
      WrapsLarge(v - o, pau);
      assert false;
    }
    SmallMod(v - o);
  }

  /** The estimated FAT size fits its field and suffices for the clusters that are left. */
  lemma FatSuffices(kind: FatType, c: nat, n: nat, szFat: nat, nFat: nat, szDir: nat, align: nat)
    requires kind != FAT32 && InRange(kind, n) && szDir <= 2048 && align < 0x8000 && (nFat == 1 || nFat == 2)
    requires n <= c <= n + 1 + szFat * nFat + szDir + align
    requires if c > MAX_FAT12 then szFat == Mod32(Mod32(c * 2 + 4) + 511) / 512 else kind == FAT12 && szFat == ((c * 3 + 1) / 2 + 514) / 512
    ensures 1 <= szFat <= 400 && (EntryBytes(kind, n + 2) + 511) / 512 <= szFat
  {
    if c > MAX_FAT12 {
      EstimateBound(c, n, szFat, nFat, szDir, align);
      Suffices16(kind, n, c);
    } else {
      Suffices12(n, c);
    }
    hide EntryBytes, Mod32;
  }

  /** Whatever the loop settles on is good. */
  lemma Settles(r: Request, d: Draft, szAu: nat)
    requires r.Valid() && Drafted(r, d) && LargeEnough(r, d)
    requires Judge(r, Align(r, d), szAu).Settled?
    ensures Judge(r, Align(r, d), szAu) == Settled(Align(r, d)) && Good(r, Align(r, d))
  {
    AlignOverhead(r, d);
    hide Align, Good, Clusters;
    if d.kind == FAT32 {
      Settles32(r, d);
    } else {
      Settles16(r, d);
    }
  }

  /** The geometry loop of f_mkfs. */
  method Plans(r: Request, fsty: FatType, szAu: nat) returns (ok: bool, p: Plan)
    requires r.Valid() && (szAu == 0 || PowerUpTo128(szAu))
    ensures var o := Outcome(r, fsty, szAu);
            if ok then o.Chosen? && p == Align(r, o.draft) && Good(r, p) else o == NoChoice
  {
    hide RoundOf, DraftOf, Align, Good, Judge, Request.Valid, PowerUpTo128;
    var kind, au := fsty, szAu;
    p := Plan(FAT12, 1, 0, 0, 0, 0);
    while true
      invariant (au == 0 || PowerUpTo128(au)) && Outcome(r, kind, au) == Outcome(r, fsty, szAu)
      decreases Measure(kind, au)
    {
      var v, d := Round(r, kind, au);
      match v {
        case Aborted =>
          return false, p;
        case Again(k, a) =>
          kind, au := k, a;
        case Settled(plan) =>
          Settles(r, d, au);
          return true, plan;
      }
    }
  }

  // ------------------------------------------------------------------ the boot sector

  /** The sector buffer after st_word and st_dword. */
  method PutWord(buf: array<Byte>, o: nat, v: nat)
    requires buf.Length == 512 && o + 2 <= 512
    modifies buf
    ensures LdWord(buf[..], o) == v % 0x1_0000
    ensures forall j :: 0 <= j < 512 && !(o <= j < o + 2) ==> buf[j] == old(buf[j])
  {
    WordBytes(v);
    var b0: Byte, b1: Byte := v % 0x100, v / 0x100 % 0x100;
    buf[o], buf[o + 1] := b0, b1;
  }

  method PutDword(buf: array<Byte>, o: nat, v: nat)
    requires buf.Length == 512 && o + 4 <= 512
    modifies buf
    ensures LdDword(buf[..], o) == v % 0x1_0000_0000
    ensures forall j :: 0 <= j < 512 && !(o <= j < o + 4) ==> buf[j] == old(buf[j])
  {
    DwordBytes(v);
    var b0: Byte, b1: Byte, b2: Byte, b3: Byte := v % 0x100, v / 0x100 % 0x100, v / 0x1_0000 % 0x100, v / 0x100_0000 % 0x100;
    buf[o], buf[o + 1], buf[o + 2], buf[o + 3] := b0, b1, b2, b3;
  }

  lemma DwordBytes(v: nat)
    ensures v % 0x1_0000_0000 == v % 0x100 + 0x100 * (v / 0x100 % 0x100) + 0x1_0000 * (v / 0x1_0000 % 0x100)
        + 0x100_0000 * (v / 0x100_0000 % 0x100)
  {
    var h := v / 0x1_0000;
    Halves(v);
    WordBytes(v);
    WordBytes(h);
    DivDiv(v, 0x1_0000, 0x100);
  }

  lemma Halves(v: nat)
    ensures v % 0x1_0000_0000 == v % 0x1_0000 + 0x1_0000 * (v / 0x1_0000 % 0x1_0000)
  {
  }

  method PutString(buf: array<Byte>, o: nat, bytes: seq<Byte>)
    requires buf.Length == 512 && o + |bytes| <= 512
    modifies buf
    ensures buf[o..o + |bytes|] == bytes
    ensures forall j :: 0 <= j < 512 && !(o <= j < o + |bytes|) ==> buf[j] == old(buf[j])
  {
    forall i | 0 <= i < |bytes| {
      buf[o + i] := bytes[i];
    }
  }

  /** A field depends on its own bytes only. */
  lemma WordStays(a: Sector, b: Sector, o: nat)
    requires o + 2 <= 512 && a[o] == b[o] && a[o + 1] == b[o + 1]
    ensures LdWord(a, o) == LdWord(b, o)
  {
  }

  lemma DwordStays(a: Sector, b: Sector, o: nat)
    requires o + 4 <= 512 && a[o] == b[o] && a[o + 1] == b[o + 1] && a[o + 2] == b[o + 2] && a[o + 3] == b[o + 3]
    ensures LdDword(a, o) == LdDword(b, o)
  {
  }

  const FAT32_NAME: seq<Byte> := [0x46, 0x41, 0x54, 0x33, 0x32, 0x20, 0x20, 0x20]     // "FAT32   "
  const FAT_NAME: seq<Byte> := [0x46, 0x41, 0x54, 0x20, 0x20, 0x20, 0x20, 0x20]       // "FAT     "
  const NO_NAME: seq<Byte> := [0x4E, 0x4F, 0x20, 0x4E, 0x41, 0x4D, 0x45, 0x20, 0x20, 0x20, 0x20]
  const BOOT: seq<Byte> := [0xEB, 0xFE, 0x90, 0x4D, 0x53, 0x44, 0x4F, 0x53, 0x35, 0x2E, 0x30]    // jump and "MSDOS5.0"

  /** The fields that depend on the plan in the same way for all sub-types. */
  ghost predicate Common(s: Sector, r: Request, p: Plan) {
    && s[0] == 0xEB && LdWord(s, 11) == 512 && s[13] == p.pau && LdWord(s, 14) == p.szRsv && s[16] == r.nFat
    && LdWord(s, 17) == (if p.kind == FAT32 then 0 else r.nRoot)
    && LdWord(s, 19) == (if r.szVol < 0x1_0000 then r.szVol else 0)
    && LdDword(s, 32) == (if r.szVol < 0x1_0000 then 0 else r.szVol)
  }

  /** Those that tell the sub-types apart. */
  ghost predicate Special(s: Sector, p: Plan) {
    && LdWord(s, 510) == 0xAA55
    && if p.kind == FAT32 then
         LdWord(s, 22) == 0 && LdDword(s, 36) == p.szFat && LdWord(s, 42) == 0 && LdDword(s, 44) == 2
             && s[82..90] == FAT32_NAME
       else LdWord(s, 22) == p.szFat && s[82..90] != FAT32_NAME
  }

  lemma CommonStays(a: Sector, b: Sector, r: Request, p: Plan)
    requires Common(a, r, p) && forall j :: 0 <= j < 36 && !(21 <= j < 32) ==> b[j] == a[j]
    ensures Common(b, r, p)
  {
  }

  /** The stores up to the number of root entries. */
  method WriteHead(buf: array<Byte>, r: Request, p: Plan)
    requires buf.Length == 512 && Good(r, p) && forall j :: 0 <= j < 512 ==> buf[j] == 0
    modifies buf
    ensures buf[0] == 0xEB && LdWord(buf[..], 11) == 512 && buf[13] == p.pau && LdWord(buf[..], 14) == p.szRsv
        && buf[16] == r.nFat
    ensures LdWord(buf[..], 17) == if p.kind == FAT32 then 0 else r.nRoot
    ensures forall j :: 19 <= j < 512 ==> buf[j] == 0
  {
    hide Good, LdWord, LdDword, Request.Valid;
    Fits(r, p);
    WriteBoot(buf, p);
    ghost var s11 := buf[..];
    PutWord(buf, 14, p.szRsv);
    ghost var s14 := buf[..];
    buf[16] := r.nFat;
    PutWord(buf, 17, if p.kind == FAT32 then 0 else r.nRoot);
    WordStays(s11, buf[..], 11);
    WordStays(s14, buf[..], 14);
  }

  /** The jump, the maker's name, and the sizes of sectors and clusters. */
  method WriteBoot(buf: array<Byte>, p: Plan)
    requires buf.Length == 512 && p.pau <= 128
    modifies buf
    ensures buf[0] == 0xEB && LdWord(buf[..], 11) == 512 && buf[13] == p.pau
    ensures forall j :: 14 <= j < 512 ==> buf[j] == old(buf[j])
  {
    hide LdWord;
    PutString(buf, 0, BOOT);
    assert buf[0..11][0] == 0xEB;
    PutWord(buf, 11, 512);
    ghost var s11 := buf[..];
    buf[13] := p.pau;
    WordStays(s11, buf[..], 11);
  }

  /** The volume size, in 16 or in 32 bits. */
  method WriteSize(buf: array<Byte>, r: Request)
    requires buf.Length == 512 && r.szVol < 0x1_0000_0000 && forall j :: 19 <= j < 512 ==> buf[j] == 0
    modifies buf
    ensures LdWord(buf[..], 19) == if r.szVol < 0x1_0000 then r.szVol else 0
    ensures LdDword(buf[..], 32) == if r.szVol < 0x1_0000 then 0 else r.szVol
    ensures forall j :: 0 <= j < 512 && !(19 <= j < 21 || 32 <= j < 36) ==> buf[j] == old(buf[j])
  {
    hide LdWord, LdDword;
    ZeroNum(buf[..]);
    ghost var zero := buf[..];
    if r.szVol < 0x1_0000 {
      PutWord(buf, 19, r.szVol);
      DwordStays(zero, buf[..], 32);
    } else {
      PutDword(buf, 32, r.szVol);
      WordStays(zero, buf[..], 19);
    }
  }

  /** The stores up to the hidden sectors. */
  method WriteCommon(buf: array<Byte>, r: Request, p: Plan)
    requires buf.Length == 512 && Good(r, p) && forall j :: 0 <= j < 512 ==> buf[j] == 0
    modifies buf
    ensures Common(buf[..], r, p)
    ensures forall j :: 36 <= j < 512 || 22 <= j < 24 ==> buf[j] == 0
  {
    Fits(r, p);
    hide Good, LdWord, LdDword;
    WriteHead(buf, r, p);
    ghost var head := buf[..];
    WriteSize(buf, r);
    ghost var size := buf[..];
    WordStays(head, size, 11);
    WordStays(head, size, 14);
    WordStays(head, size, 17);
    WriteDriveData(buf, r);
    CommonStays(size, buf[..], r, p);
  }

  lemma ZeroNum(s: Sector)
    ensures s[19] == s[20] == 0 ==> LdWord(s, 19) == 0
    ensures s[32] == s[33] == s[34] == s[35] == 0 ==> LdDword(s, 32) == 0
  {
  }

  /** Media descriptor, drive shape and hidden sectors: nothing mounting looks at. */
  method WriteDriveData(buf: array<Byte>, r: Request)
    requires buf.Length == 512
    modifies buf
    ensures forall j :: 0 <= j < 512 && !(j == 21 || 24 <= j < 32) ==> buf[j] == old(buf[j])
  {
    buf[21] := 0xF8;
    PutWord(buf, 24, 63);
    PutWord(buf, 26, 255);
    PutDword(buf, 28, r.bVol);
  }

  lemma Fits(r: Request, p: Plan)
    requires Good(r, p)
    ensures 1 <= p.pau <= 128 && 1 <= p.szRsv < 0x1_0000 && 1 <= r.nFat <= 2 && r.nRoot < 0x1_0000
        && r.szVol < 0x1_0000_0000
    ensures p.szFat < 0x1_0000_0000 && (p.kind != FAT32 ==> p.szFat < 0x1_0000)
  {
  }

  /** The rest, for FAT32. */
  method WriteSpecial32(buf: array<Byte>, p: Plan, vsn: nat)
    requires buf.Length == 512 && p.kind == FAT32 && p.szFat < 0x1_0000_0000 && forall j :: 36 <= j < 512 || 22 <= j < 24 ==> buf[j] == 0
    modifies buf
    ensures Special(buf[..], p) && forall j :: 0 <= j < 36 && !(22 <= j < 24) ==> buf[j] == old(buf[j])
  {
    hide LdWord, LdDword;
    PutDword(buf, 67, vsn);
    PutDword(buf, 36, p.szFat);
    ghost var s36 := buf[..];
    PutDword(buf, 44, 2);
    ZeroWords(buf[..]);
    ghost var s44 := buf[..];
    WriteExtended(buf);
    DwordStays(s36, buf[..], 36);
    DwordStays(s44, buf[..], 44);
    WordStays(s44, buf[..], 42);
    WordStays(s44, buf[..], 22);
  }

  /** FSINFO and backup locations, drive number, labels and signature. */
  method WriteExtended(buf: array<Byte>)
    requires buf.Length == 512
    modifies buf
    ensures LdWord(buf[..], 510) == 0xAA55 && buf[..][82..90] == FAT32_NAME
    ensures forall j :: 0 <= j < 48 ==> buf[j] == old(buf[j])
  {
    hide LdWord, LdDword;
    PutWord(buf, 48, 1);
    PutWord(buf, 50, 6);
    buf[64] := 0x80;
    buf[66] := 0x29;
    PutString(buf, 71, NO_NAME);
    PutString(buf, 82, FAT32_NAME);
    ghost var s82 := buf[..];
    PutWord(buf, 510, 0xAA55);
    assert buf[..][82..90] == s82[82..90];
  }

  lemma ZeroWords(s: Sector)
    ensures s[22] == s[23] == 0 ==> LdWord(s, 22) == 0
    ensures s[42] == s[43] == 0 ==> LdWord(s, 42) == 0
  {
  }

  /** The rest, for FAT12 and FAT16. */
  method WriteSpecial16(buf: array<Byte>, p: Plan, vsn: nat)
    requires buf.Length == 512 && p.kind != FAT32 && p.szFat < 0x1_0000 && forall j :: 36 <= j < 512 || 22 <= j < 24 ==> buf[j] == 0
    modifies buf
    ensures Special(buf[..], p) && forall j :: 0 <= j < 36 && !(22 <= j < 24) ==> buf[j] == old(buf[j])
  {
    hide LdWord, LdDword;
    PutDword(buf, 39, vsn);
    PutWord(buf, 22, p.szFat);
    ghost var s22 := buf[..];
    buf[36] := 0x80;
    buf[38] := 0x29;
    PutString(buf, 43, NO_NAME);
    PutString(buf, 54, FAT_NAME);
    PutWord(buf, 510, 0xAA55);
    WordStays(s22, buf[..], 22);
    assert buf[..][82..90][0] == 0;
  }

  /** The boot sector of a plan. */
  method WriteVbr(r: Request, p: Plan, vsn: nat) returns (s: Sector)
    requires Good(r, p)
    ensures Common(s, r, p) && Special(s, p)
  {
    Fits(r, p);
    hide Good, LdWord, LdDword, Common, Special;
    var buf := new Byte[512](i => 0);
    WriteCommon(buf, r, p);
    ghost var before := buf[..];
    if p.kind == FAT32 {
      WriteSpecial32(buf, p, vsn);
    } else {
      WriteSpecial16(buf, p, vsn);
    }
    CommonStays(before, buf[..], r, p);
    s := buf[..];
  }

  // --------------------------------------------------------------------- mounting

  predicate PowerOfTwo(n: nat) {
    n in {1, 2, 4, 8, 16, 32, 64, 128, 256, 512, 1024, 2048, 4096, 8192, 16384, 32768}
  }

  /** The parameter block as mount_volume reads it. */
  datatype Bpb = Bpb(bytsPerSec: nat, csize: nat, nrsv: nat, nFats: nat, nRootdir: nat, tot16: nat, tot32: nat,
                     fat16: nat, fat32: nat, version: nat, root: nat)

  function ReadBpb(s: Sector): Bpb {
    Bpb(LdWord(s, 11), s[13], LdWord(s, 14), s[16], LdWord(s, 17), LdWord(s, 19), LdDword(s, 32),
        LdWord(s, 22), LdDword(s, 36), LdWord(s, 42), LdDword(s, 44))
  }

  /** check_fs on a sector that was read: is it the boot sector of a FAT volume? */
  predicate CheckFs(s: Sector) {
    var b := ReadBpb(s);
    && s[0] in {0xEB, 0xE9, 0xE8}
    && ((LdWord(s, 510) == 0xAA55 && s[82..90] == FAT32_NAME)
        || (&& PowerOfTwo(b.bytsPerSec) && b.bytsPerSec == 512 && PowerOfTwo(b.csize) && b.nrsv != 0
            && (b.nFats == 1 || b.nFats == 2) && b.nRootdir != 0 && (b.tot16 >= 128 || b.tot32 >= 0x1_0000)
                && b.fat16 != 0))
  }

  /** What mount_volume keeps: the geometry, entries of a static root, and where the root begins. */
  datatype Mounted = Mounted(g: Geometry, nRootdir: nat, dirbase: nat) | NoFilesystem

  /** The checks mount_volume makes before it counts clusters. */
  predicate Proper(b: Bpb) {
    b.bytsPerSec == 512 && (b.nFats == 1 || b.nFats == 2) && PowerOfTwo(b.csize) && b.nRootdir % 16 == 0 && b.nrsv != 0
  }

  function FatSize(b: Bpb): nat {
    if b.fat16 == 0 then b.fat32 else b.fat16
  }

  function TotalSectors(b: Bpb): nat {
    if b.tot16 == 0 then b.tot32 else b.tot16
  }

  function SystemSectors(b: Bpb): nat {
    Mod32(b.nrsv + Mod32(FatSize(b) * b.nFats) + b.nRootdir / 16)
  }

  function CountOf(b: Bpb): nat
    requires Proper(b)
  {
    if TotalSectors(b) < SystemSectors(b) then 0 else Clusters(TotalSectors(b) - SystemSectors(b), b.csize)
  }

  function KindOf(n: nat): FatType {
    if n <= MAX_FAT12 then FAT12 else if n <= MAX_FAT16 then FAT16 else FAT32
  }

  /** mount_volume, once the boot sector was found at sector bsect of a disk of n sectors. */
  function Mount(b: Bpb, bsect: nat, n: nat): Mounted {
    if !Proper(b) || CountOf(b) == 0 || CountOf(b) > MAX_FAT32 then NoFilesystem
    else
      var nclst, fsize := CountOf(b), FatSize(b);
      var kind := KindOf(nclst);
      if kind == FAT32 && (b.version != 0 || b.nRootdir != 0) then NoFilesystem
      else if kind != FAT32 && b.nRootdir == 0 then NoFilesystem
      else if fsize < (EntryBytes(kind, nclst + 2) + 511) / 512 then NoFilesystem
      else
        var fatbase := Mod32(bsect + b.nrsv);
        Mounted(Geometry(kind, fatbase, fsize, b.nFats, Mod32(bsect + SystemSectors(b)), b.csize, nclst + 2, n),
            b.nRootdir,
                if kind == FAT32 then b.root else Mod32(fatbase + Mod32(fsize * b.nFats)))
  }

  /** What f_mkfs meant the volume to be. */
  function Intended(r: Request, p: Plan, n: nat): Mounted {
    Mounted(Geometry(p.kind, r.bVol + p.szRsv, p.szFat, r.nFat, r.bVol + p.Overhead(r.nFat), p.pau, p.nClst + 2, n),
            if p.kind == FAT32 then 0 else r.nRoot, if p.kind == FAT32 then 2 else r.bVol + p.szRsv + p.szFat * r.nFat)
  }

  /** The block read back holds the plan. */
  lemma ReadsBack(r: Request, p: Plan, s: Sector)
    requires Good(r, p) && Common(s, r, p) && Special(s, p)
    ensures var b := ReadBpb(s);
            && Proper(b) && b.csize == p.pau && b.nrsv == p.szRsv && b.nFats == r.nFat
            && b.nRootdir == (if p.kind == FAT32 then 0 else r.nRoot) && FatSize(b) == p.szFat && TotalSectors(b) == r.szVol
            && (p.kind == FAT32 ==> b.version == 0 && b.root == 2)
            && (b.tot16 >= 128 || b.tot32 >= 0x1_0000) && (p.kind != FAT32 ==> b.fat16 != 0)
  {
    hide LdWord, LdDword, Clusters, EntryBytes, Plan.Overhead;
  }

  /** What lies before the data area, on mounting and on formatting. */
  lemma SameOverhead(r: Request, p: Plan, s: Sector)
    requires Good(r, p) && Common(s, r, p) && Special(s, p)
    ensures var b := ReadBpb(s);
            && Proper(b) && SystemSectors(b) == p.Overhead(r.nFat)
                && Mod32(FatSize(b) * b.nFats) == p.szFat * r.nFat && CountOf(b) == p.nClst
  {
    hide ReadBpb, Good, Common, Special, FatSize, TotalSectors, Clusters, Mod32, Proper, Request.Valid, EntryBytes;
    ReadsBack(r, p, s);
    GoodSizes(r, p);
    SmallMod(p.szFat * r.nFat);
    SmallMod(p.Overhead(r.nFat));
  }

  /** No sector number wraps. */
  lemma PlacesFit(r: Request, p: Plan)
    requires Good(r, p)
    ensures Mod32(r.bVol + p.szRsv) == r.bVol + p.szRsv
        && Mod32(r.bVol + p.Overhead(r.nFat)) == r.bVol + p.Overhead(r.nFat)
    ensures Mod32(r.bVol + p.szRsv + p.szFat * r.nFat) == r.bVol + p.szRsv + p.szFat * r.nFat
  {
    hide Good, Mod32, Request.Valid;
    GoodSizes(r, p);
    SmallMod(r.bVol + p.szRsv);
    SmallMod(r.bVol + p.Overhead(r.nFat));
    SmallMod(r.bVol + p.szRsv + p.szFat * r.nFat);
  }

  lemma GoodSizes(r: Request, p: Plan)
    requires Good(r, p)
    ensures r.bVol + p.Overhead(r.nFat) < 0x1_0000_0000 && p.Overhead(r.nFat) <= r.szVol && (r.nFat == 1 || r.nFat == 2)
    ensures p.nClst == Clusters(r.szVol - p.Overhead(r.nFat), p.pau)
    ensures p.szDir == (if p.kind == FAT32 then 0 else r.nRoot / 16) && InRange(p.kind, p.nClst) && r.nRoot >= 16
    ensures (EntryBytes(p.kind, p.nClst + 2) + 511) / 512 <= p.szFat
  {
    hide Clusters, EntryBytes;
  }

  /** The boot sector passes check_fs, and the volume mounts as intended exactly when a cluster was left. */
  lemma MountsAsIntended(r: Request, p: Plan, s: Sector, n: nat)
    requires Good(r, p) && Common(s, r, p) && Special(s, p)
    ensures CheckFs(s)
    ensures Mount(ReadBpb(s), r.bVol, n) == if p.nClst >= 1 then Intended(r, p, n) else NoFilesystem
  {
    ReadsBack(r, p, s);
    SameOverhead(r, p, s);
    PlacesFit(r, p);
    GoodSizes(r, p);
    Fits(r, p);
    hide ReadBpb, Good, Common, SystemSectors, CountOf, FatSize, TotalSectors, Clusters, EntryBytes, Mod32,
        Plan.Overhead;
  }

  /** A volume that mounts has the geometry the file system relies on. */
  lemma IntendedIsOk(r: Request, p: Plan, n: nat)
    requires Good(r, p) && p.nClst >= 1 && r.bVol + r.szVol <= n < 0xFFFF_FFFF
    ensures Intended(r, p, n).g.Ok() && (r.bVol + p.Overhead(r.nFat)) % r.blk == 0
  {
    hide Clusters, Good, Request.Valid, EntryBytes, Plan.Overhead;
    GoodSizes(r, p);
    GoodPlace(r, p);
    Fits(r, p);
    ClustersFit(r.szVol - p.Overhead(r.nFat), p.pau);
    OverheadIs(r, p);
  }

  lemma GoodPlace(r: Request, p: Plan)
    requires Good(r, p)
    ensures r.blk > 0 && (r.bVol + p.Overhead(r.nFat)) % r.blk == 0 && PowerUpTo128(p.pau)
  {
    hide Clusters, EntryBytes, Plan.Overhead;
  }

  lemma OverheadIs(r: Request, p: Plan)
    ensures p.Overhead(r.nFat) == p.szRsv + p.szFat * r.nFat + p.szDir
    ensures r.nFat == 2 ==> p.szFat * r.nFat == 2 * p.szFat
  {
  }

  lemma ClustersFit(x: nat, pau: nat)
    requires pau > 0
    ensures pau * Clusters(x, pau) <= x
  {
  }

  /** A cluster is left when the data area is moved to the next erase block. */
  predicate HasRoom(r: Request, d: Draft)
    requires r.blk > 0
  {
    var o := d.szRsv + d.szFat * r.nFat + d.szDir;
    r.szVol >= o + ToBoundary(r.bVol + o, r.blk) + d.pau
  }

  lemma {:induction false} OutcomeIsGood(r: Request, kind: FatType, szAu: nat)
    requires r.Valid() && (szAu == 0 || PowerUpTo128(szAu)) && Outcome(r, kind, szAu).Chosen?
    ensures var d := Outcome(r, kind, szAu).draft; Drafted(r, d) && LargeEnough(r, d) && Good(r, Align(r, d))
    decreases Measure(kind, szAu)
  {
    var d := DraftOf(r, kind, szAu);
    match RoundOf(r, kind, szAu) {
      case Again(k, au) => OutcomeIsGood(r, k, au);
      case Settled(_) =>
        DraftIsDrafted(r, kind, szAu);
        Settles(r, d, szAu);
    }
    hide Good, Drafted, Align, DraftOf;
  }

  lemma DraftIsDrafted(r: Request, kind: FatType, szAu: nat)
    requires r.Valid() && (szAu == 0 || PowerUpTo128(szAu))
    ensures var d := DraftOf(r, kind, szAu);
            (kind == FAT32 ==> MAX_FAT16 < d.nClst <= MAX_FAT32) ==> Drafted(r, d)
  {
    hide Clusters;
  }

  lemma AnyCluster(x: nat, pau: nat)
    requires pau > 0
    ensures Clusters(x, pau) >= 1 <==> x >= pau
  {
    if x < pau {
      QuotientIs(x, pau, 0, x);
    } else {
      CountLess(pau, x, pau);
      QuotientIs(pau, pau, 1, 0);
    }
  }

  /** The boot sector of whatever the loop settles on passes check_fs. The volume mounts as intended if the
      request leaves room for a cluster, and is refused otherwise, which takes FAT12. */
  lemma FormatsAndMounts(r: Request, kind: FatType, szAu: nat, s: Sector, n: nat)
    requires r.Valid() && (szAu == 0 || PowerUpTo128(szAu)) && Outcome(r, kind, szAu).Chosen?
    requires Common(s, r, Align(r, Outcome(r, kind, szAu).draft)) && Special(s, Align(r, Outcome(r, kind, szAu).draft))
    ensures var d := Outcome(r, kind, szAu).draft;
            && CheckFs(s) && (d.kind != FAT12 ==> HasRoom(r, d))
            && Mount(ReadBpb(s), r.bVol, n) == if HasRoom(r, d) then Intended(r, Align(r, d), n) else NoFilesystem
  {
    hide Outcome, Good, Drafted, Align, Clusters, Common, Special, Mount, ReadBpb, CheckFs, Intended, Plan.Overhead,
        ToBoundary, EntryBytes;
    OutcomeIsGood(r, kind, szAu);
    var d := Outcome(r, kind, szAu).draft;
    var p := Align(r, d);
    MountsAsIntended(r, p, s, n);
    AlignOverhead(r, d);
    GoodSizes(r, p);
    AnyCluster(r.szVol - p.Overhead(r.nFat), p.pau);
  }

  /** Erase blocks of up to fifteen clusters always leave room. */
  lemma SmallBlocksMount(r: Request, d: Draft)
    requires r.Valid() && LargeEnough(r, d) && r.blk <= 15 * d.pau + 1
    ensures HasRoom(r, d)
  {
    hide ToBoundary;
    BoundaryAt(r.bVol + d.szRsv + d.szFat * r.nFat + d.szDir, r.blk);
  }

  /** Alignment can leave no cluster at all: 128 sectors, an erase block of 128, clusters of one sector. */
  lemma AlignmentCanEmpty()
    ensures var r, d := Request(0, 128, 1, 512, 128, false), Draft(FAT12, 1, 128, 1, 1, 32);
            r.Valid() && Outcome(r, FAT16, 1) == Chosen(d) && Align(r, d).nClst == 0 && !HasRoom(r, d)
  {
    assert ToBoundary(34, 128) == 94;
    assert Clusters(0, 1) == 0 && Clusters(128, 1) == 128 && Mod32(0) == 0 && Mod32(34) == 34;
    hide ToBoundary, Clusters, Mod32;
    var r, d := Request(0, 128, 1, 512, 128, false), Draft(FAT12, 1, 128, 1, 1, 32);
    assert Align(r, d) == Plan(FAT12, 1, 0, 95, 1, 32);
    assert DraftOf(r, FAT16, 1) == d;
    hide Align, DraftOf;
  }
}
