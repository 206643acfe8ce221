/** f_mkfs of Externals/FatFs/ff.c with the cluster size left to it: the loop finds a plan for every volume of 128
    sectors or more, and the result mounts. */
module FormatDefaults {
  import opened Radix
  import opened FatTable
  import opened VolumeFormat
  import opened BootSectors

  /** The defaults: FAT32 allowed, at most 512 root entries, erase blocks of up to 16 sectors. */
  predicate Default(r: Request) {
    r.Valid() && r.allow32 && r.nRoot <= 512 && r.blk <= 16
  }

  /** Sectors before the data area by the first estimate. */
  function Before(r: Request, d: Draft): nat {
    d.szRsv + d.szFat * r.nFat + d.szDir
  }

  /** A round past its size check: the clusters left are those behind the estimate, aligned by less than 16 sectors. */
  lemma Counted(r: Request, kind: FatType, szAu: nat) returns (n: nat)
    requires Default(r) && (szAu == 0 || PowerUpTo128(szAu))
    requires var d := DraftOf(r, kind, szAu); LargeEnough(r, d) && (kind == FAT32 ==> MAX_FAT16 < d.nClst <= MAX_FAT32)
    ensures var d := DraftOf(r, kind, szAu);
      var p := Align(r, d);
      && n < 16 && d.pau > 0 && Before(r, d) + n <= r.szVol
      && RoundOf(r, kind, szAu) == Judge(r, p, szAu)
      && p.kind == d.kind && p.pau == d.pau && p.nClst == (r.szVol - Before(r, d) - n) / d.pau
  {
    DraftIsDrafted(r, kind, szAu);
    hide DraftOf, Align, Drafted, LargeEnough;
    n := Aligned(r, DraftOf(r, kind, szAu));
  }

  lemma Aligned(r: Request, d: Draft) returns (n: nat)
    requires Default(r) && Drafted(r, d) && LargeEnough(r, d)
    ensures n < 16 && d.pau > 0 && Before(r, d) + n <= r.szVol
    ensures var p := Align(r, d);
      p.kind == d.kind && p.pau == d.pau && p.nClst == (r.szVol - Before(r, d) - n) / d.pau
  {
    Parameters(r);
    Facts(r, d);
    FatSmall(r, d);
    AlignOverhead(r, d);
    hide Align, Drafted, Mod32, ToBoundary, Plan.Overhead, Request.Valid;
    var b := r.bVol + Before(r, d);
    BoundaryAt(b, r.blk);
    n := ToBoundary(b, r.blk);
    SmallMod(r.szVol - Align(r, d).Overhead(r.nFat));
  }

  // --------------------------------------------------------------- FAT12 and FAT16

  /** The first estimate of a round for FAT16, in numbers. */
  lemma Draft16(r: Request, szAu: nat)
    requires Default(r) && (szAu == 0 || PowerUpTo128(szAu)) && r.szVol / Au(FAT16, r.szVol, szAu) < 0x400_0000
    ensures var pau := Au(FAT16, r.szVol, szAu);
      var c, d := r.szVol / pau, DraftOf(r, FAT16, szAu);
      && d.pau == pau && d.nClst == c && d.kind == (if c > 4085 then FAT16 else FAT12)
      && d.szFat == (if c > 4085 then (2 * c + 515) / 512 else ((3 * c + 1) / 2 + 514) / 512)
      && (Before(r, d) == 1 + d.szFat + r.nRoot / 16 || Before(r, d) == 1 + 2 * d.szFat + r.nRoot / 16)
  {
    var c := r.szVol / Au(FAT16, r.szVol, szAu);
    hide Au;
    if c > 4085 {
      SmallMod(2 * c + 4);
      SmallMod(2 * c + 515);
    }
  }

  /** Few clusters: FAT12 it is. */
  lemma SettlesFew(r: Request, szAu: nat)
    requires Default(r) && (szAu == 0 || PowerUpTo128(szAu))
    requires var pau := Au(FAT16, r.szVol, szAu); r.szVol / pau <= 4085 && r.szVol >= 16 * pau + 80
    ensures RoundOf(r, FAT16, szAu).Settled?
  {
    Draft16(r, szAu);
    var d := DraftOf(r, FAT16, szAu);
    var n := Counted(r, FAT16, szAu);
    hide DraftOf, Align, RoundOf, Au, Request.Valid;
    Monotone(r.szVol - Before(r, d) - n, r.szVol, d.pau);
  }

  /** More clusters: the sub-type is judged by those that are left. */
  lemma ManyRound(r: Request, szAu: nat) returns (over: nat)
    requires Default(r) && (szAu == 0 || PowerUpTo128(szAu))
    requires 4085 < r.szVol / Au(FAT16, r.szVol, szAu) < 0x400_0000
    ensures var pau := Au(FAT16, r.szVol, szAu);
      var f := (2 * (r.szVol / pau) + 515) / 512;
      && 2 + f <= over <= 2 * f + 48 && over <= r.szVol
      && var left := (r.szVol - over) / pau;
         RoundOf(r, FAT16, szAu) ==
           if left > 65525 then (if szAu == 0 && pau <= 32 then Again(FAT16, pau * 2) else Again(FAT32, szAu))
           else if left <= 4085 then (if szAu == 0 && pau <= 64 then Again(FAT16, pau * 2) else Aborted)
           else Settled(Align(r, DraftOf(r, FAT16, szAu)))
  {
    var v, pau := r.szVol, Au(FAT16, r.szVol, szAu);
    Draft16(r, szAu);
    var d := DraftOf(r, FAT16, szAu);
    ManySectors(v, pau, v / pau);
    hide Au, Align, DraftOf, RoundOf;
    var n := Counted(r, FAT16, szAu);
    over := Before(r, d) + n;
  }

  lemma ManySectors(v: nat, pau: nat, c: nat)
    requires pau > 0 && c == Clusters(v, pau) && c > 4085
    ensures v >= 2 * ((2 * c + 515) / 512) + 33 + pau * 16
  {
    ClustersFit(v, pau);
    ProductAtLeast(pau, c);
    FewTableSectors(c);
    hide *;
  }

  lemma ProductAtLeast(a: nat, c: nat)
    requires a >= 1 && c >= 17
    ensures a * c >= 17 * a + c - 17
  {
    var more := (a - 1) * (c - 17);
    assert more >= 0;
    assert more == a * c - 17 * a - c + 17;
  }

  lemma FewTableSectors(c: nat)
    requires c > 4085
    ensures c - 17 >= 2 * ((2 * c + 515) / 512) + 33
  {
  }

  lemma Monotone(a: nat, b: nat, pau: nat)
    requires a <= b && pau > 0
    ensures a / pau <= b / pau
  {
    CountLess(a, b, pau);
  }

  /** The cluster sizes chosen for FAT16. */
  lemma Chosen16(r: Request)
    requires r.Valid()
    ensures var pau := Au(FAT16, r.szVol, 0);
      pau in {1, 2, 4, 8, 16, 32, 64} && Bounded16(r.szVol, pau) && (pau > 1 ==> r.szVol >= 0x1000)
  {
    AuIs(FAT16, r.szVol, 0);
  }

  /** A second round, with clusters twice as large, when too few were left for FAT16. */
  lemma TooFew(v: nat, pau: nat, over: nat)
    requires pau in {1, 2, 4, 8, 16, 32, 64} && over <= v && (v - over) / pau <= 4085
    requires over <= 2 * ((2 * (v / pau) + 515) / 512) + 48
    ensures v / (pau * 2) <= 4085
  {
    DivDiv(v, pau, 2);
    var c := v / pau;
    ClustersFit(v, pau);
    CountLess(v - over, v, pau);
    assert c <= 4085 + over;
  }

  /** FAT12 and FAT16 serve every volume but those with more than 65525 clusters of 64 sectors. */
  lemma Plan16(r: Request)
    requires Default(r)
    ensures Outcome(r, FAT16, 0).Chosen? || (RoundOf(r, FAT16, 0) == Again(FAT32, 0) && r.szVol >= 64 * 65526)
  {
    Chosen16(r);
    var v, pau := r.szVol, Au(FAT16, r.szVol, 0);
    hide Au, RoundOf, Align, DraftOf, Outcome;
    if v / pau <= 4085 {
      SettlesFew(r, 0);
      FirstRound(r);
    } else {
      ManyBelow(v, pau);
      var over := ManyRound(r, 0);
      PlanMany(r, pau, over);
    }
  }

  lemma FirstRound(r: Request)
    requires r.Valid()
    ensures RoundOf(r, FAT16, 0).Settled? ==> Outcome(r, FAT16, 0).Chosen?
    ensures var v := RoundOf(r, FAT16, 0);
      v.Again? ==> Outcome(r, FAT16, 0) == Outcome(r, v.kind, v.szAu)
  {
    hide RoundOf;
  }

  /** The first round once it has more than 4085 clusters. */
  lemma PlanMany(r: Request, pau: nat, over: nat)
    requires Default(r) && pau in {1, 2, 4, 8, 16, 32, 64} && r.szVol / pau > 4085 && Bounded16(r.szVol, pau)
    requires var f := (2 * (r.szVol / pau) + 515) / 512; 2 + f <= over <= 2 * f + 48 && over <= r.szVol
    requires var left := (r.szVol - over) / pau;
      if left > 65525 then RoundOf(r, FAT16, 0) == (if pau <= 32 then Again(FAT16, pau * 2) else Again(FAT32, 0))
      else if left <= 4085 then RoundOf(r, FAT16, 0) == Again(FAT16, pau * 2)
      else RoundOf(r, FAT16, 0).Settled?
    ensures Outcome(r, FAT16, 0).Chosen? || (RoundOf(r, FAT16, 0) == Again(FAT32, 0) && r.szVol >= 64 * 65526)
  {
    hide Au, RoundOf, Align, DraftOf, Outcome, Request.Valid;
    var left := (r.szVol - over) / pau;
    FirstRound(r);
    if left <= 4085 {
      TooFew(r.szVol, pau, over);
      Doubled(r, pau);
    } else if left > 65525 {
      TooMany(r.szVol, pau, over);
      if pau == 32 {
        Doubled32(r);
      }
    }
  }

  /** Below the size from which larger clusters are chosen. */
  predicate Bounded16(v: nat, pau: nat) {
    match pau
    case 1 => v < 0x1000
    case 2 => v < 0x4000
    case 4 => v < 0x1_0000
    case 8 => v < 0x4_0000
    case 16 => v < 0x10_0000
    case 32 => v < 0x20_0000
    case _ => v < 0x1_0000_0000
  }

  lemma ManyBelow(v: nat, pau: nat)
    requires v < 0x1_0000_0000 && pau in {1, 2, 4, 8, 16, 32, 64}
    requires pau < 64 ==> v < 0x20_0000
    ensures v / pau < 0x400_0000
  {
    if pau == 64 {
    } else {
      ClustersFit(v, pau);
      AtLeastClusters(v, pau);
    }
  }

  /** The second round with twice the cluster size. */
  lemma Doubled(r: Request, pau: nat)
    requires Default(r) && pau in {1, 2, 4, 8, 16, 32, 64} && r.szVol / pau > 4085 && r.szVol / (pau * 2) <= 4085
    ensures Outcome(r, FAT16, pau * 2).Chosen?
  {
    var twice := pau * 2;
    assert PowerUpTo128(twice) && Au(FAT16, r.szVol, twice) == twice;
    ManySectors(r.szVol, pau, r.szVol / pau);
    hide Au, RoundOf, Align, DraftOf;
    AtLeast(r.szVol, pau);
    SettlesFew(r, twice);
  }

  lemma AtLeast(v: nat, pau: nat)
    requires pau in {1, 2, 4, 8, 16, 32, 64} && v / pau > 4085
    ensures v >= 4086 * pau
  {
    ClustersFit(v, pau);
    ProductOfMore(pau, v / pau);
  }

  lemma ProductOfMore(a: nat, c: nat)
    requires c > 4085
    ensures a * c >= 4086 * a
  {
    if c > 4086 {
      MulAtLeast(a, c - 4086);
      assert a * (c - 4086) == a * c - 4086 * a;
    }
  }

  /** Too many clusters for FAT16 are left only with clusters of 32 or 64 sectors. */
  lemma TooMany(v: nat, pau: nat, over: nat)
    requires pau in {1, 2, 4, 8, 16, 32, 64} && 2 + (2 * (v / pau) + 515) / 512 <= over <= v && (v - over) / pau > 65525
    requires Bounded16(v, pau)
    ensures pau in {32, 64} && v >= 65526 * pau
  {
  }

  lemma Doubled32(r: Request)
    requires Default(r) && 65526 * 32 <= r.szVol < 0x20_0000
    ensures Outcome(r, FAT16, 64).Chosen?
  {
    assert Au(FAT16, r.szVol, 64) == 64;
    hide Au, RoundOf, Align, DraftOf;
    var over := ManyRound(r, 64);
  }

  // -------------------------------------------------------------------------- FAT32

  /** A round for FAT32 on a large volume. */
  lemma Round32(r: Request, szAu: nat) returns (over: nat)
    requires Default(r) && r.szVol >= 64 * 65526 && (szAu == 0 || szAu == 32) && Au(FAT32, r.szVol, szAu) in {32, 64}
    ensures var pau := Au(FAT32, r.szVol, szAu);
      var f := (4 * (r.szVol / pau) + 519) / 512;
      && 32 + f <= over <= 2 * f + 48 && over <= r.szVol
      && RoundOf(r, FAT32, szAu) ==
           if (r.szVol - over) / pau > 65525 then Settled(Align(r, DraftOf(r, FAT32, szAu)))
           else if szAu == 0 then Again(FAT32, pau / 2) else Aborted
  {
    var v, pau := r.szVol, Au(FAT32, r.szVol, szAu);
    Draft32(r, szAu);
    var d := DraftOf(r, FAT32, szAu);
    hide Au, Align, DraftOf, RoundOf;
    var n := Counted(r, FAT32, szAu);
    over := Before(r, d) + n;
  }

  lemma Draft32(r: Request, szAu: nat)
    requires Default(r) && r.szVol >= 64 * 65526 && (szAu == 0 || szAu == 32) && Au(FAT32, r.szVol, szAu) in {32, 64}
    ensures var pau := Au(FAT32, r.szVol, szAu);
      var c, d := r.szVol / pau, DraftOf(r, FAT32, szAu);
      && d.pau == pau && d.nClst == c && d.kind == FAT32 && MAX_FAT16 < c <= MAX_FAT32
      && d.szFat == (4 * c + 519) / 512 && LargeEnough(r, d)
      && (Before(r, d) == 32 + d.szFat || Before(r, d) == 32 + 2 * d.szFat)
  {
    var c := r.szVol / Au(FAT32, r.szVol, szAu);
    Parameters(r);
    Bounds32(r.szVol, Au(FAT32, r.szVol, szAu));
    hide Au, Request.Valid;
    SmallMod(c * 4 + 519);
  }

  lemma Bounds32(v: nat, pau: nat)
    requires 64 * 65526 <= v < 0x1_0000_0000 && pau in {32, 64}
    ensures 65525 < v / pau < 0x800_0001 && v >= 32 + 2 * ((4 * (v / pau) + 519) / 512) + pau * 16
  {
  }

  /** A volume too large for FAT16 is formatted with FAT32. */
  lemma Plan32(r: Request)
    requires Default(r) && r.szVol >= 64 * 65526
    ensures Outcome(r, FAT32, 0).Chosen?
  {
    AuIs(FAT32, r.szVol, 0);
    hide Au, RoundOf, Align, DraftOf;
    var pau := Au(FAT32, r.szVol, 0);
    var over := Round32(r, 0);
    LeftFor32(r.szVol, pau, over);
    if (r.szVol - over) / pau <= 65525 {
      Second32(r);
    }
  }

  lemma LeftFor32(v: nat, pau: nat, over: nat)
    requires v >= 64 * 65526 && pau in {32, 64} && over <= v && over <= 2 * ((4 * (v / pau) + 519) / 512) + 48
    ensures pau == 32 ==> (v - over) / pau > 65525
  {
  }

  lemma Second32(r: Request)
    requires Default(r) && r.szVol >= 64 * 65526
    ensures Outcome(r, FAT32, 32).Chosen?
  {
    assert Au(FAT32, r.szVol, 32) == 32;
    hide Au, RoundOf, Align, DraftOf;
    var over := Round32(r, 32);
    LeftFor32(r.szVol, 32, over);
  }

  // --------------------------------------------------------------------- all volumes

  /** With the defaults the loop settles on a plan for every volume. */
  lemma AlwaysPlans(r: Request)
    requires Default(r)
    ensures Outcome(r, FAT16, 0).Chosen?
  {
    hide RoundOf, Outcome, Request.Valid;
    Plan16(r);
    FirstRound(r);
    if !Outcome(r, FAT16, 0).Chosen? {
      Plan32(r);
    }
  }

  /** And the volume mounts as it was meant to. */
  lemma AlwaysMounts(r: Request, s: Sector, n: nat)
    requires Default(r) && Outcome(r, FAT16, 0).Chosen?
    requires Common(s, r, Align(r, Outcome(r, FAT16, 0).draft)) && Special(s, Align(r, Outcome(r, FAT16, 0).draft))
    ensures CheckFs(s)
    ensures Mount(ReadBpb(s), r.bVol, n) == Intended(r, Align(r, Outcome(r, FAT16, 0).draft), n)
  {
    OutcomeIsGood(r, FAT16, 0);
    FormatsAndMounts(r, FAT16, 0, s, n);
    hide Outcome, Good, Common, Special, Mount, ReadBpb, CheckFs, Intended, Align, Drafted;
    SmallBlocksMount(r, Outcome(r, FAT16, 0).draft);
  }
}
