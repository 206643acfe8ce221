/** The runs over the entries of a directory that dir_read and dir_find of Externals/FatFs/ff.c make, and
    what they find: exactly the complete runs of long entries tied to a short one. */
module LongNameScan {
  import opened Radix
  import opened LongNames

  const DDEM: Byte := 0xE5    // a deleted entry
  const DOT: Byte := 0x2E

  /** The entry of a file or directory: not deleted, not "." or "..", no label, no long entry. */
  predicate Short(e: Entry) {
    e[0] != 0 && e[0] != DDEM && e[0] != DOT && Attr(e) / 8 % 2 == 0
  }

  /** Where dir_read for files stops. */
  predicate Listed(e: Entry) {
    e[0] != 0 && e[0] != DDEM && e[0] != DOT && Attr(e) != 0x08 && Attr(e) != 0x28 && Attr(e) != AM_LFN
  }

  /** What dir_find compares a short name with. */
  predicate Findable(e: Entry) {
    e[0] != 0 && e[0] != DDEM && Attr(e) / 8 % 2 == 0
  }

  /** The short entry at p carries the long name x: right before it lie the entries of x as
      dir_register writes them, tied to it by its checksum. */
  ghost predicate NamedAt(dirs: seq<Entry>, p: nat, x: seq<Unit>) {
    && Name(x) && Parts(x) <= p < |dirs| && Short(dirs[p])
    && Written(dirs[p - Parts(x)..p], x, SumSfn(dirs[p], 11))
  }

  /** No long entry lies right before p. */
  predicate Clear(dirs: seq<Entry>, p: nat)
    requires p <= |dirs|
  {
    p == 0 || dirs[p - 1][0] == DDEM || Attr(dirs[p - 1]) != AM_LFN
  }

  lemma PartAt(dirs: seq<Entry>, p: nat, x: seq<Unit>, k: nat)
    requires NamedAt(dirs, p, x) && 1 <= k <= Parts(x)
    ensures IsPart(dirs[p - k], x, k, SumSfn(dirs[p], 11)) && Parts(x) <= 20
    ensures dirs[p - k][0] != 0 && dirs[p - k][0] != DDEM && dirs[p - k][0] != DOT && Attr(dirs[p - k]) == AM_LFN
  {
    hide Char, SumSfn;
    assert dirs[p - Parts(x)..p][Parts(x) - k] == dirs[p - k];
  }

  /** A short entry carries at most one long name. */
  lemma OneName(dirs: seq<Entry>, p: nat, x: seq<Unit>, y: seq<Unit>)
    requires NamedAt(dirs, p, x) && NamedAt(dirs, p, y)
    ensures x == y
  {
    SameParts(dirs, p, x, y);
    SameParts(dirs, p, y, x);
    forall i | 0 <= i < 13 * Parts(x)
      ensures At(x, i) == At(y, i)
    {
      PartAt(dirs, p, x, i / 13 + 1);
      PartAt(dirs, p, y, i / 13 + 1);
      assert Char(dirs[p - (i / 13 + 1)], i % 13) == At(x, i);
    }
    var m := if |x| < |y| then |x| else |y|;
    assert m < 13 * Parts(x) ==> At(x, m) == At(y, m);
    assert forall i :: 0 <= i < m ==> x[i] == At(x, i) == At(y, i) == y[i];
  }

  /** The end mark of the shorter one would be missing from the longer one. */
  lemma SameParts(dirs: seq<Entry>, p: nat, x: seq<Unit>, y: seq<Unit>)
    requires NamedAt(dirs, p, x) && NamedAt(dirs, p, y)
    ensures Parts(x) >= Parts(y)
  {
    if Parts(x) < Parts(y) {
      PartAt(dirs, p, x, Parts(x));
      PartAt(dirs, p, y, Parts(x));
    }
  }

  lemma NameFits(dirs: seq<Entry>, p: nat, x: seq<Unit>)
    requires NamedAt(dirs, p, x)
    ensures |x| < BUFFER && Name(x) && p < |dirs| && 1 <= Parts(x) <= p && Short(dirs[p])
  {
  }

  // ------------------------------------------------------------ runs of long entries

  /** What is done with each long entry: its units taken, or compared with a name in a buffer. */
  datatype Reader = Picking | Comparing(buf: seq<Unit>, up: Unit -> Unit)

  ghost predicate Fits(r: Reader, e: Entry) {
    match r
    case Picking => exists t :: Pickable(e, t)
    case Comparing(buf, up) => |buf| == BUFFER && Folds(up) && exists t :: Matches(buf, e, up, t)
  }

  /** A long entry the scan looks at. dir_read passes over those that begin with a dot. */
  predicate Long(r: Reader, e: Entry) {
    e[0] != 0 && e[0] != DDEM && (r.Picking? ==> e[0] != DOT) && Attr(e) == AM_LFN
  }

  /** From q up to p long entries that fit, numbered down from m, of one checksum, the first marked last. */
  ghost predicate Run(r: Reader, dirs: seq<Entry>, q: nat, p: nat, m: int) {
    && q < p <= |dirs| && IsLast(dirs[q])
    && forall j :: q <= j < p ==> InRun(r, dirs[j], m - (j - q), dirs[q][13])
  }

  ghost predicate InRun(r: Reader, e: Entry, k: int, sum: Byte) {
    Long(r, e) && Fits(r, e) && Order(e) == k && e[13] == sum
  }

  /** A complete run, from start on, lies right before p and is tied to the entry there. */
  ghost predicate LongRun(r: Reader, dirs: seq<Entry>, start: nat, p: nat) {
    p < |dirs| && exists q: nat :: start <= q < p && Run(r, dirs, q, p, p - q) && dirs[q][13] == SumSfn(dirs[p], 11)
  }

  lemma StopsOnce(e: Entry, t: nat, u: nat)
    requires StopsAt(e, t) && StopsAt(e, u)
    ensures t == u
  {
    hide Char;
  }

  lemma FitsOrder(r: Reader, e: Entry)
    requires Fits(r, e)
    ensures 1 <= Order(e) < 0xFF
  {
    match r {
      case Picking =>
        var t :| Pickable(e, t);
        OrderFits(e, t);
      case Comparing(buf, up) =>
        var t :| Matches(buf, e, up, t);
        MatchedOrder(buf, e, up, t);
    }
    hide Fits;
  }

  /** A run extended by its next entry, or begun by an entry marked last. */
  lemma RunGrows(r: Reader, dirs: seq<Entry>, q: nat, p: nat, m: int)
    requires p < |dirs| && (if q == p then IsLast(dirs[p]) else Run(r, dirs, q, p, m))
    requires q <= p && InRun(r, dirs[p], m - (p - q), dirs[q][13])
    ensures Run(r, dirs, q, p + 1, m)
  {
    hide InRun, IsLast;
  }

  lemma RunShrinks(r: Reader, dirs: seq<Entry>, q: nat, p: nat, m: int)
    requires Run(r, dirs, q, p + 1, m) && q < p
    ensures Run(r, dirs, q, p, m) && InRun(r, dirs[p], m - (p - q), dirs[q][13])
  {
    hide InRun, IsLast;
  }

  /** The buffer holds the units of an entry where they belong. */
  ghost predicate Kept(buf: seq<Unit>, e: Entry) {
    |buf| == BUFFER && forall t: nat, s: nat :: Pickable(e, t) && (s < t || (s == t && (t < 13 || IsLast(e)))) ==> KeptUnit(buf, e, t, s)
  }

  ghost predicate KeptUnit(buf: seq<Unit>, e: Entry, t: nat, s: nat) {
    s <= t <= 13 && Offset(Order(e)) + s < |buf| && buf[Offset(Order(e)) + s] == if s < t then Char(e, s) else 0
  }

  /** The buffer holds the units of all entries of a run. */
  ghost predicate Held(r: Reader, buf: seq<Unit>, dirs: seq<Entry>, q: nat, p: nat) {
    r.Picking? ==> p <= |dirs| && forall j :: q <= j < p ==> Kept(buf, dirs[j])
  }

  /** What number and checksum say at p: the run that is going on, if any. */
  ghost predicate Tracks(r: Reader, dirs: seq<Entry>, start: nat, p: nat, ord: int, sum: Byte, buf: seq<Unit>) {
    && (ord != 0xFF ==> Ongoing(r, dirs, start, p, ord, sum, buf))
    && forall q: nat, m: int :: start <= q < p && Run(r, dirs, q, p, m) ==> ord == m - (p - q) && sum == dirs[q][13]
  }

  ghost predicate Ongoing(r: Reader, dirs: seq<Entry>, start: nat, p: nat, ord: int, sum: Byte, buf: seq<Unit>) {
    exists q: nat :: start <= q < p && Going(r, dirs, q, p, ord, sum, buf)
  }

  ghost predicate Going(r: Reader, dirs: seq<Entry>, q: nat, p: nat, ord: int, sum: Byte, buf: seq<Unit>) {
    Run(r, dirs, q, p, ord + (p - q)) && sum == dirs[q][13] && Held(r, buf, dirs, q, p)
  }

  lemma TracksStart(r: Reader, dirs: seq<Entry>, start: nat, sum: Byte, buf: seq<Unit>)
    ensures Tracks(r, dirs, start, start, 0xFF, sum, buf)
  {
  }

  /** An entry that belongs to no run. */
  lemma TracksReset(r: Reader, dirs: seq<Entry>, start: nat, p: nat, sum: Byte, buf: seq<Unit>)
    requires p < |dirs| && !Long(r, dirs[p])
    ensures Tracks(r, dirs, start, p + 1, 0xFF, sum, buf)
  {
    hide Long, Run;
    var next := p + 1;
    forall q: nat, m: int | start <= q < next && Run(r, dirs, q, next, m)
      ensures false
    {
      EndsLong(r, dirs, q, next, m);
    }
  }

  /** What becomes of number and checksum at a long entry. */
  ghost predicate Stepped(r: Reader, e: Entry, ord0: int, sum0: Byte, ord: int, sum: Byte) {
    var o := if IsLast(e) then Order(e) else ord0;
    && sum == (if IsLast(e) then e[13] else sum0)
    && ord == if Order(e) == o && sum == e[13] && Fits(r, e) then o - 1 else 0xFF
  }

  /** What becomes of the buffer: only the place of the entry changes, but for the end of the name. */
  ghost predicate Placed(r: Reader, e: Entry, buf: seq<Unit>, buf': seq<Unit>) {
    r.Picking? && Fits(r, e) ==>
      && Kept(buf', e) && |buf| == BUFFER
      && (!IsLast(e) ==> forall i :: Offset(Order(e)) + 13 <= i < BUFFER ==> buf'[i] == buf[i])
  }

  lemma TracksStep(r: Reader, dirs: seq<Entry>, start: nat, p: nat, ord0: int, sum0: Byte, ord: int, sum: Byte,
                   buf: seq<Unit>, buf': seq<Unit>)
    requires start <= p < |dirs| && Long(r, dirs[p]) && Tracks(r, dirs, start, p, ord0, sum0, buf)
    requires Stepped(r, dirs[p], ord0, sum0, ord, sum) && Placed(r, dirs[p], buf, buf')
    ensures Tracks(r, dirs, start, p + 1, ord, sum, buf')
  {
    StepSound(r, dirs, start, p, ord0, sum0, ord, sum, buf, buf');
    var next := p + 1;
    forall q: nat, m: int | start <= q < next && Run(r, dirs, q, next, m)
      ensures ord == m - (next - q) && sum == dirs[q][13]
    {
      StepComplete(r, dirs, start, p, ord0, sum0, ord, sum, buf, q, m);
    }
  }

  lemma StepComplete(r: Reader, dirs: seq<Entry>, start: nat, p: nat, ord0: int, sum0: Byte, ord: int, sum: Byte,
                     buf: seq<Unit>, q: nat, m: int)
    requires start <= q <= p < |dirs| && Tracks(r, dirs, start, p, ord0, sum0, buf)
    requires Stepped(r, dirs[p], ord0, sum0, ord, sum) && Run(r, dirs, q, p + 1, m)
    ensures ord == m - (p + 1 - q) && sum == dirs[q][13]
  {
    hide Fits, IsLast, Order, Long, Held, Kept;
    assert InRun(r, dirs[p], m - (p - q), dirs[q][13]);
    if q < p {
      RunShrinks(r, dirs, q, p, m);
    }
  }

  lemma StepSound(r: Reader, dirs: seq<Entry>, start: nat, p: nat, ord0: int, sum0: Byte, ord: int, sum: Byte,
                  buf: seq<Unit>, buf': seq<Unit>)
    requires start <= p < |dirs| && Long(r, dirs[p]) && Tracks(r, dirs, start, p, ord0, sum0, buf)
    requires Stepped(r, dirs[p], ord0, sum0, ord, sum) && Placed(r, dirs[p], buf, buf')
    ensures ord != 0xFF ==> Ongoing(r, dirs, start, p + 1, ord, sum, buf')
  {
    hide Fits, IsLast, Order, Long, Held, Run, Placed;
    var e := dirs[p];
    if ord != 0xFF {
      FitsOrder(r, e);
      if IsLast(e) {
        RunGrows(r, dirs, p, p, Order(e));
        HeldFirst(r, buf, buf', dirs, p);
        assert Going(r, dirs, p, p + 1, ord, sum, buf');
      } else {
        var q: nat :| start <= q < p && Going(r, dirs, q, p, ord0, sum0, buf);
        RunGrows(r, dirs, q, p, ord0 + (p - q));
        HeldGrows(r, buf, buf', dirs, q, p, ord0 + (p - q));
        assert Going(r, dirs, q, p + 1, ord, sum, buf');
      }
    }
  }

  lemma HeldFirst(r: Reader, buf: seq<Unit>, buf': seq<Unit>, dirs: seq<Entry>, p: nat)
    requires p < |dirs| && Fits(r, dirs[p]) && Placed(r, dirs[p], buf, buf')
    ensures Held(r, buf', dirs, p, p + 1)
  {
    hide Fits, Kept;
  }

  lemma HeldGrows(r: Reader, buf: seq<Unit>, buf': seq<Unit>, dirs: seq<Entry>, q: nat, p: nat, m: int)
    requires p < |dirs| && Fits(r, dirs[p]) && !IsLast(dirs[p]) && Placed(r, dirs[p], buf, buf')
    requires Run(r, dirs, q, p, m) && Order(dirs[p]) == m - (p - q) && Held(r, buf, dirs, q, p)
    ensures Held(r, buf', dirs, q, p + 1)
  {
    hide Fits, Kept, IsLast, Order, Long;
    if r.Picking? {
      FitsOrder(r, dirs[p]);
      KeptLength(buf', dirs[p]);
      forall j | q <= j < p
        ensures Kept(buf', dirs[j])
      {
        assert InRun(r, dirs[j], m - (j - q), dirs[q][13]);
        KeptBelow(buf, buf', dirs[j], Offset(Order(dirs[p])) + 13);
      }
    }
  }

  /** Units above the place that changes stay. */
  lemma KeptBelow(buf: seq<Unit>, buf': seq<Unit>, e: Entry, from: nat)
    requires Kept(buf, e) && |buf'| == BUFFER && from <= Offset(Order(e)) && forall i :: from <= i < BUFFER ==> buf'[i] == buf[i]
    ensures Kept(buf', e)
  {
    hide Pickable, Char, Order, IsLast;
    forall t: nat, s: nat | Pickable(e, t) && (s < t || (s == t && (t < 13 || IsLast(e))))
      ensures KeptUnit(buf', e, t, s)
    {
      assert KeptUnit(buf, e, t, s);
    }
  }

  /** At a short entry number and checksum say whether a complete run is tied to it. */
  lemma RunEnds(r: Reader, dirs: seq<Entry>, start: nat, p: nat, ord: int, sum: Byte, buf: seq<Unit>)
    requires start <= p < |dirs| && Tracks(r, dirs, start, p, ord, sum, buf)
    ensures ord == 0 && sum == SumSfn(dirs[p], 11) <==> LongRun(r, dirs, start, p)
    ensures ord == 0 ==> exists q: nat :: start <= q < p && Run(r, dirs, q, p, p - q) && Held(r, buf, dirs, q, p)
  {
    hide Run, Held, SumSfn;
    if ord == 0 {
      var q: nat :| start <= q < p && Going(r, dirs, q, p, ord, sum, buf);
    }
    if LongRun(r, dirs, start, p) {
      var q: nat :| start <= q < p && Run(r, dirs, q, p, p - q) && dirs[q][13] == SumSfn(dirs[p], 11);
    }
  }

  // -------------------------------------------------------- what a complete run means

  /** Without a long entry right before it nothing is tied to an entry. */
  lemma ClearHasNone(r: Reader, dirs: seq<Entry>, start: nat, p: nat)
    requires p < |dirs| && (p == start || Clear(dirs, p))
    ensures !LongRun(r, dirs, start, p)
  {
    hide Run, SumSfn;
    if LongRun(r, dirs, start, p) {
      var q: nat :| start <= q < p && Run(r, dirs, q, p, p - q) && dirs[q][13] == SumSfn(dirs[p], 11);
      EndsLong(r, dirs, q, p, p - q);
    }
  }

  lemma EndsLong(r: Reader, dirs: seq<Entry>, q: nat, p: nat, m: int)
    requires Run(r, dirs, q, p, m)
    ensures Long(r, dirs[p - 1])
  {
    assert InRun(r, dirs[p - 1], m - (p - 1 - q), dirs[q][13]);
  }

  /** A run before a short entry that carries x is not shorter than x: the parts of x carry the end mark
      only in the last. */
  lemma CoversName(r: Reader, dirs: seq<Entry>, q: nat, p: nat, x: seq<Unit>)
    requires NamedAt(dirs, p, x) && Run(r, dirs, q, p, p - q)
    ensures p - q >= Parts(x)
  {
    NameFits(dirs, p, x);
    hide Fits, NamedAt, SumSfn, Char, IsPart, IsLast, Order, InRun;
    if p - q < Parts(x) {
      PartAt(dirs, p, x, p - q);
      var t := FirstZero(dirs[q]);
      PartPicked(dirs[q], x, p - q, SumSfn(dirs[p], 11), t);
    }
  }

  /** The entries of x are a complete run for dir_read. */
  lemma NameIsRun(dirs: seq<Entry>, p: nat, x: seq<Unit>)
    requires NamedAt(dirs, p, x)
    ensures Parts(x) <= p && Run(Picking, dirs, p - Parts(x), p, Parts(x))
        && dirs[p - Parts(x)][13] == SumSfn(dirs[p], 11)
  {
    hide NamedAt, Parts, SumSfn, IsPart;
    NameFits(dirs, p, x);
    var q, sum := p - Parts(x), SumSfn(dirs[p], 11);
    forall j | q <= j < p
      ensures InRun(Picking, dirs[j], p - j, sum) && (j == q ==> IsLast(dirs[j]))
    {
      PartAt(dirs, p, x, p - j);
      var t := FirstZero(dirs[j]);
      PartPicked(dirs[j], x, p - j, sum, t);
      hide Order, IsLast, Pickable, Attr;
    }
  }

  /** When the units of a complete run before the carrier of x are in the buffer, so is x. */
  lemma HeldName(dirs: seq<Entry>, q: nat, p: nat, x: seq<Unit>, buf: seq<Unit>)
    requires NamedAt(dirs, p, x) && Run(Picking, dirs, q, p, p - q) && Held(Picking, buf, dirs, q, p)
    ensures Holds(buf, x)
  {
    hide NamedAt, SumSfn, IsPart, Kept, Char, Fits, IsLast, Order;
    NameFits(dirs, p, x);
    CoversName(Picking, dirs, q, p, x);
    hide Run;
    assert |buf| == BUFFER by { assert Kept(buf, dirs[q]); KeptLength(buf, dirs[q]); }
    forall i | 0 <= i <= |x|
      ensures buf[i] == At(x, i)
    {
      var k := if i < |x| then i / 13 + 1 else (|x| + 12) / 13;
      PartAt(dirs, p, x, k);
      UnitKept(buf, dirs[p - k], x, k, SumSfn(dirs[p], 11), i);
    }
    assert buf[..|x|] == x;
  }

  lemma KeptLength(buf: seq<Unit>, e: Entry)
    requires Kept(buf, e)
    ensures |buf| == BUFFER
  {
  }

  /** Unit i of x lies in part k, and so in the buffer. */
  lemma UnitKept(buf: seq<Unit>, e: Entry, x: seq<Unit>, k: nat, sum: Byte, i: nat)
    requires Name(x) && 1 <= k <= Parts(x) && IsPart(e, x, k, sum) && Kept(buf, e)
    requires i <= |x| && k == if i < |x| then i / 13 + 1 else (|x| + 12) / 13
    ensures |buf| == BUFFER && i < BUFFER && buf[i] == At(x, i)
  {
    var t := FirstZero(e);
    PartPicked(e, x, k, sum, t);
    hide Char, Order, IsLast;
    var s: nat := i - 13 * (k - 1);
    assert s < t || (s == t && (t < 13 || IsLast(e)));
    assert KeptUnit(buf, e, t, s);
    if s < t {
      assert Char(e, s) == At(x, 13 * (k - 1) + s);
    }
  }

  /** The carrier of x has a complete run that matches w exactly when x is w but for case. */
  lemma RunMatches(dirs: seq<Entry>, p: nat, x: seq<Unit>, buf: seq<Unit>, w: seq<Unit>, up: Unit -> Unit)
    requires NamedAt(dirs, p, x) && Name(w) && Holds(buf, w) && Folds(up)
    ensures LongRun(Comparing(buf, up), dirs, 0, p) <==> SameName(x, w, up)
  {
    hide NamedAt, SumSfn, IsPart, Holds, Folds, Name, AgreeFrom, SameName, Run;
    NameFits(dirs, p, x);
    assert |buf| == BUFFER by { HoldsLength(buf, w); }
    AgreeIsSame(x, buf, w, up);
    var r, q := Comparing(buf, up), p - Parts(x);
    if LongRun(r, dirs, 0, p) {
      var q': nat :| 0 <= q' < p && Run(r, dirs, q', p, p - q') && dirs[q'][13] == SumSfn(dirs[p], 11);
      CoversName(r, dirs, q', p, x);
      RunAgrees(dirs, p, x, buf, up, q', 0);
    }
    if AgreeFrom(x, buf, up, 0) {
      AgreesRun(dirs, p, x, buf, up);
    }
  }

  lemma HoldsLength(buf: seq<Unit>, w: seq<Unit>)
    requires Holds(buf, w)
    ensures |buf| == BUFFER
  {
  }

  /** A matching run agrees with x in all parts above the n-th. */
  lemma {:induction false} RunAgrees(dirs: seq<Entry>, p: nat, x: seq<Unit>, buf: seq<Unit>, up: Unit -> Unit,
      q: nat, n: nat)
    requires NamedAt(dirs, p, x) && |buf| == BUFFER && Folds(up) && Name(x) && n < Parts(x)
    requires Run(Comparing(buf, up), dirs, q, p, p - q) && p - q >= Parts(x)
    ensures AgreeFrom(x, buf, up, 13 * n)
    decreases Parts(x) - n
  {
    if n + 1 < Parts(x) {
      RunAgrees(dirs, p, x, buf, up, q, n + 1);
    }
    NameFits(dirs, p, x);
    hide NamedAt, IsPart, Folds, AgreeFrom, SumSfn, IsLast, Order, Name;
    var e := dirs[p - (n + 1)];
    PartAt(dirs, p, x, n + 1);
    assert InRun(Comparing(buf, up), e, n + 1, dirs[q][13]);
    var t :| Matches(buf, e, up, t);
    hide Run, InRun, Fits;
    MatchStops(buf, e, up, t);
    hide Matches;
    PartMatches(e, x, n + 1, SumSfn(dirs[p], 11), t, buf, up);
  }

  lemma MatchStops(buf: seq<Unit>, e: Entry, up: Unit -> Unit, t: nat)
    requires |buf| == BUFFER && Matches(buf, e, up, t)
    ensures StopsAt(e, t)
  {
  }

  /** If x agrees everywhere its entries are a complete run. */
  lemma AgreesRun(dirs: seq<Entry>, p: nat, x: seq<Unit>, buf: seq<Unit>, up: Unit -> Unit)
    requires NamedAt(dirs, p, x) && |buf| == BUFFER && Folds(up) && Name(x) && AgreeFrom(x, buf, up, 0)
    ensures LongRun(Comparing(buf, up), dirs, 0, p)
  {
    hide NamedAt, IsPart, Folds, AgreeFrom, SumSfn, Name;
    NameFits(dirs, p, x);
    NameIsRun(dirs, p, x);
    var r, q, sum := Comparing(buf, up), p - Parts(x), SumSfn(dirs[p], 11);
    forall j | q <= j < p
      ensures InRun(r, dirs[j], p - j, sum)
    {
      PartAt(dirs, p, x, p - j);
      assert InRun(Picking, dirs[j], Parts(x) - (j - q), sum);
      PartFits(dirs[j], x, p - j, sum, buf, up);
      hide Order, Fits, Attr;
    }
    hide InRun, IsLast;
    assert Run(r, dirs, q, p, p - q);
  }

  lemma PartFits(e: Entry, x: seq<Unit>, k: nat, sum: Byte, buf: seq<Unit>, up: Unit -> Unit)
    requires Folds(up) && Name(x) && 1 <= k <= Parts(x) && IsPart(e, x, k, sum) && |buf| == BUFFER
        && AgreeFrom(x, buf, up, 0)
    ensures Fits(Comparing(buf, up), e)
  {
    hide Folds, IsPart, Matches;
    var t := FirstZero(e);
    AgreeLess(x, buf, up, 13 * k);
    AgreeLess(x, buf, up, 13 * (k - 1));
    hide AgreeFrom;
    PartMatches(e, x, k, sum, t, buf, up);
  }

  lemma AgreeLess(x: seq<Unit>, buf: seq<Unit>, up: Unit -> Unit, j: int)
    requires |buf| == BUFFER && |x| < BUFFER && 0 <= j && AgreeFrom(x, buf, up, 0)
    ensures AgreeFrom(x, buf, up, j)
  {
  }

  // ------------------------------------------------------------------- dir_read

  /** One long entry in the scan of dir_read. */
  method TakePart(e: Entry, buf: array<Unit>, ord0: nat, sum0: Byte) returns (ord: nat, sum: Byte)
    requires buf.Length == BUFFER
    modifies buf
    ensures Stepped(Picking, e, ord0, sum0, ord, sum)
    ensures ord != 0xFF ==> Placed(Picking, e, old(buf[..]), buf[..])
  {
    hide Char, Pickable, Order, IsLast;
    ord, sum := ord0, sum0;
    if IsLast(e) {
      sum := e[13];
      ord := Order(e);
    }
    if Order(e) == ord && sum == e[13] {
      var ok;
      ghost var t;
      ok, t := PickLfn(buf, e);
      Decides(e, t);
      if ok {
        OrderFits(e, t);
        OffsetFits(e, t);
        PickPlaces(e, t, old(buf[..]), buf[..]);
        ord := ord - 1;
      } else {
        ord := 0xFF;
      }
    } else {
      ord := 0xFF;
    }
  }

  lemma Decides(e: Entry, t: nat)
    requires StopsAt(e, t)
    ensures Fits(Picking, e) <==> Pickable(e, t)
  {
    if Fits(Picking, e) {
      var u :| Pickable(e, u);
      assert StopsAt(e, u);
      StopsOnce(e, t, u);
    }
  }

  lemma OffsetFits(e: Entry, t: nat)
    requires Pickable(e, t)
    ensures Offset(Order(e)) + t < BUFFER + (if t == 13 && !IsLast(e) then 1 else 0)
  {
  }

  lemma PickPlaces(e: Entry, t: nat, buf: seq<Unit>, buf': seq<Unit>)
    requires |buf| == |buf'| == BUFFER && Pickable(e, t)
    requires forall s :: 0 <= s < t || (s == t && (t < 13 || IsLast(e))) ==>
               Offset(Order(e)) + s < BUFFER && buf'[Offset(Order(e)) + s] == if s < t then Char(e, s) else 0
    requires forall i :: 0 <= i < BUFFER && !(Offset(Order(e)) <= i <= Offset(Order(e)) + t) ==> buf'[i] == buf[i]
    requires t == 13 && !IsLast(e) && Offset(Order(e)) + 13 < BUFFER ==>
            buf'[Offset(Order(e)) + 13] == buf[Offset(Order(e)) + 13]
    ensures Placed(Picking, e, buf, buf')
  {
    PickStops(e, t);
    forall u: nat, s: nat | Pickable(e, u) && (s < u || (s == u && (u < 13 || IsLast(e))))
      ensures KeptUnit(buf', e, u, s)
    {
      assert StopsAt(e, u);
      StopsOnce(e, t, u);
      hide Char, Order, IsLast, Pickable;
    }
    hide Char, Order, IsLast, Pickable;
  }

  lemma PickStops(e: Entry, t: nat)
    requires Pickable(e, t)
    ensures t <= 13
  {
  }

  /** dir_read for files: stops at the next one. lfn tells whether a complete run of long entries is tied to
      it; then the buffer holds what they say. */
  method DirRead(dirs: seq<Entry>, start: nat, buf: array<Unit>) returns (found: bool, pos: nat, lfn: bool)
    requires buf.Length == BUFFER && start <= |dirs|
    modifies buf
    ensures start <= pos <= |dirs| && forall i :: start <= i < pos ==> dirs[i][0] != 0 && !Listed(dirs[i])
    ensures if found then pos < |dirs| && Listed(dirs[pos]) else !lfn && (pos == |dirs| || dirs[pos][0] == 0)
    ensures lfn <==> found && LongRun(Picking, dirs, start, pos)
    ensures lfn ==> exists q: nat :: start <= q < pos && Run(Picking, dirs, q, pos, pos - q) && Held(Picking, buf[..], dirs, q, pos)
    ensures forall x :: found && NamedAt(dirs, pos, x) && start <= pos - Parts(x) ==> lfn && Holds(buf[..], x)
    ensures pos == start || Clear(dirs, pos) ==> !lfn
  {
    hide NamedAt, IsLast, Order, Holds, SumSfn, Parts, Stepped, Placed, Tracks, Run, Held, LongRun;
    var ord: nat, sum: Byte := 0xFF, 0xFF;
    pos := start;
    TracksStart(Picking, dirs, start, sum, buf[..]);
    while pos < |dirs|
      invariant start <= pos <= |dirs| && forall i :: start <= i < pos ==> dirs[i][0] != 0 && !Listed(dirs[i])
      invariant Tracks(Picking, dirs, start, pos, ord, sum, buf[..])
    {
      var e := dirs[pos];
      if e[0] == 0 {
        return false, pos, false;
      }
      if e[0] == DDEM || e[0] == DOT || Attr(e) == 0x08 || Attr(e) == 0x28 {
        ord := 0xFF;
        TracksReset(Picking, dirs, start, pos, sum, buf[..]);
      } else if Attr(e) == AM_LFN {
        ghost var ord0, sum0, before := ord, sum, buf[..];
        ord, sum := TakePart(e, buf, ord, sum);
        TakesOn(dirs, start, pos, ord0, sum0, ord, sum, before, buf[..]);
      } else {
        lfn := ord == 0 && sum == SumSfn(e, 11);
        RunEnds(Picking, dirs, start, pos, ord, sum, buf[..]);
        NamesRead(dirs, start, pos, buf[..], lfn);
        return true, pos, lfn;
      }
      pos := pos + 1;
    }
    found, lfn := false, false;
  }

  lemma TakesOn(dirs: seq<Entry>, start: nat, p: nat, ord0: int, sum0: Byte, ord: int, sum: Byte, buf: seq<Unit>,
      buf': seq<Unit>)
    requires start <= p < |dirs| && Long(Picking, dirs[p]) && Tracks(Picking, dirs, start, p, ord0, sum0, buf)
    requires Stepped(Picking, dirs[p], ord0, sum0, ord, sum) && (ord != 0xFF ==> Placed(Picking, dirs[p], buf, buf'))
    ensures Tracks(Picking, dirs, start, p + 1, ord, sum, buf')
  {
    hide Fits, IsLast, Order, Long, Held, Run, Placed;
    if ord != 0xFF {
      StepSound(Picking, dirs, start, p, ord0, sum0, ord, sum, buf, buf');
    }
    var next := p + 1;
    forall q: nat, m: int | start <= q < next && Run(Picking, dirs, q, next, m)
      ensures ord == m - (next - q) && sum == dirs[q][13]
    {
      StepComplete(Picking, dirs, start, p, ord0, sum0, ord, sum, buf, q, m);
    }
  }

  /** What dir_register stored for a file is what is reported. */
  lemma NamesRead(dirs: seq<Entry>, start: nat, p: nat, buf: seq<Unit>, lfn: bool)
    requires p < |dirs| && (lfn <==> LongRun(Picking, dirs, start, p))
    requires lfn ==> exists q: nat :: start <= q < p && Run(Picking, dirs, q, p, p - q) && Held(Picking, buf, dirs, q, p)
    ensures forall x :: NamedAt(dirs, p, x) && start <= p - Parts(x) ==> lfn && Holds(buf, x)
    ensures p == start || Clear(dirs, p) ==> !lfn
  {
    hide NamedAt, Holds, SumSfn, Run, Held, Parts, Clear;
    forall x | NamedAt(dirs, p, x) && start <= p - Parts(x)
      ensures lfn && Holds(buf, x)
    {
      NameFits(dirs, p, x);
      NameIsRun(dirs, p, x);
      var q: nat :| start <= q < p && Run(Picking, dirs, q, p, p - q) && Held(Picking, buf, dirs, q, p);
      HeldName(dirs, q, p, x, buf);
    }
    if p == start || Clear(dirs, p) {
      ClearHasNone(Picking, dirs, start, p);
    }
  }

  // ------------------------------------------------------------------- dir_find

  /** One long entry in the scan of dir_find. */
  method ComparePart(e: Entry, buf: seq<Unit>, up: Unit -> Unit, ord0: nat, sum0: Byte) returns (ord: nat, sum: Byte)
    requires |buf| == BUFFER && Folds(up)
    ensures Stepped(Comparing(buf, up), e, ord0, sum0, ord, sum)
  {
    hide Char, Order, IsLast, Matches, Folds;
    ord, sum := ord0, sum0;
    if IsLast(e) {
      sum := e[13];
      ord := Order(e);
    }
    if Order(e) == ord && sum == e[13] {
      var ok;
      ghost var t;
      ok, t := CmpLfn(buf, e, up);
      MatchDecides(e, t, buf, up);
      if ok {
        MatchedOrder(buf, e, up, t);
      }
      ord := if ok then ord - 1 else 0xFF;
    } else {
      ord := 0xFF;
    }
  }

  lemma MatchDecides(e: Entry, t: nat, buf: seq<Unit>, up: Unit -> Unit)
    requires |buf| == BUFFER && Folds(up) && StopsAt(e, t)
    ensures Fits(Comparing(buf, up), e) <==> Matches(buf, e, up, t)
  {
    hide Folds;
    if Fits(Comparing(buf, up), e) {
      var u :| Matches(buf, e, up, u);
      MatchStops(buf, e, up, u);
      StopsOnce(e, t, u);
    }
  }

  /** What is looked for: a long name, a short name, or both. */
  datatype Wanted = Wanted(w: seq<Unit>, fn: seq<Byte>, noLfn: bool, lossy: bool)

  /** The entry at p is what is looked for: a complete run that matches is tied to it, or its short name is
      the one given. */
  ghost predicate Hit(dirs: seq<Entry>, p: nat, k: Wanted, buf: seq<Unit>, up: Unit -> Unit)
    requires p < |dirs|
  {
    Findable(dirs[p]) && (LongHit(dirs, p, k, buf, up) || (!k.lossy && dirs[p][..11] == k.fn))
  }

  ghost predicate LongHit(dirs: seq<Entry>, p: nat, k: Wanted, buf: seq<Unit>, up: Unit -> Unit) {
    !k.noLfn && LongRun(Comparing(buf, up), dirs, 0, p)
  }

  /** dir_find: the first entry of the directory that is what is looked for. */
  method DirFind(dirs: seq<Entry>, buf: seq<Unit>, k: Wanted, up: Unit -> Unit) returns (found: bool, pos: nat,
      ghost byLong: bool)
    requires Folds(up) && Name(k.w) && Holds(buf, k.w) && |k.fn| == 11
    ensures pos <= |dirs| && forall i :: 0 <= i < pos ==> dirs[i][0] != 0 && !Hit(dirs, i, k, buf, up)
    ensures if found then pos < |dirs| && Hit(dirs, pos, k, buf, up) else pos == |dirs| || dirs[pos][0] == 0
    ensures found ==> (byLong <==> LongHit(dirs, pos, k, buf, up))
  {
    HoldsLength(buf, k.w);
    hide Name, IsLast, Order, SumSfn, Folds, Stepped, Tracks, LongRun, Holds, Findable, Attr;
    var ord: nat, sum: Byte := 0xFF, 0xFF;
    pos := 0;
    ghost var r := Comparing(buf, up);
    TracksStart(r, dirs, 0, sum, buf);
    while pos < |dirs|
      invariant pos <= |dirs| && forall i :: 0 <= i < pos ==> dirs[i][0] != 0 && !Hit(dirs, i, k, buf, up)
      invariant if k.noLfn then ord == 0xFF else Tracks(r, dirs, 0, pos, ord, sum, buf)
    {
      var e := dirs[pos];
      if e[0] == 0 {
        return false, pos, false;
      }
      if e[0] == DDEM || (Attr(e) / 8 % 2 == 1 && Attr(e) != AM_LFN) {
        ord := 0xFF;
        NotLong(r, e);
        TracksReset(r, dirs, 0, pos, sum, buf);
      } else if Attr(e) == AM_LFN {
        LongNotFindable(e);
        if !k.noLfn {
          ghost var ord0, sum0 := ord, sum;
          ord, sum := ComparePart(e, buf, up, ord, sum);
          ComparesOn(r, dirs, pos, ord0, sum0, ord, sum, buf);
        }
      } else {
        NotLong(r, e);
        if !k.noLfn {
          RunEnds(r, dirs, 0, pos, ord, sum, buf);
        }
        byLong := ord == 0 && sum == SumSfn(e, 11);
        if ord == 0 && sum == SumSfn(e, 11) {
          return true, pos, byLong;
        }
        if !k.lossy && e[..11] == k.fn {
          return true, pos, byLong;
        }
        ord := 0xFF;
        TracksReset(r, dirs, 0, pos, sum, buf);
      }
      pos := pos + 1;
    }
    found, byLong := false, false;
  }

  /** Which entries dir_find compares, and which are long. */
  lemma NotLong(r: Reader, e: Entry)
    requires e[0] != 0 && (Attr(e) != AM_LFN || e[0] == DDEM)
    ensures !Long(r, e)
    ensures e[0] == DDEM || Attr(e) / 8 % 2 == 1 ==> !Findable(e)
    ensures e[0] != DDEM && Attr(e) / 8 % 2 == 0 ==> Findable(e)
  {
  }

  lemma LongNotFindable(e: Entry)
    requires Attr(e) == AM_LFN
    ensures !Findable(e)
  {
  }

  lemma ComparesOn(r: Reader, dirs: seq<Entry>, p: nat, ord0: int, sum0: Byte, ord: int, sum: Byte, buf: seq<Unit>)
    requires r.Comparing? && p < |dirs| && Long(r, dirs[p]) && Tracks(r, dirs, 0, p, ord0, sum0, buf)
    requires Stepped(r, dirs[p], ord0, sum0, ord, sum)
    ensures Tracks(r, dirs, 0, p + 1, ord, sum, buf)
  {
    hide Tracks, Stepped, Long, Fits;
    TracksStep(r, dirs, 0, p, ord0, sum0, ord, sum, buf, buf);
  }

  /** A file is found by its long name exactly when dir_register stored that name for it, but for case; one
      that does not follow long entries never is. */
  lemma FoundByName(dirs: seq<Entry>, p: nat, k: Wanted, buf: seq<Unit>, up: Unit -> Unit)
    requires Folds(up) && Name(k.w) && Holds(buf, k.w) && p < |dirs|
    ensures forall x :: NamedAt(dirs, p, x) ==> (LongHit(dirs, p, k, buf, up) <==> !k.noLfn && SameName(x, k.w, up))
    ensures Clear(dirs, p) ==> !LongHit(dirs, p, k, buf, up)
  {
    hide NamedAt, LongRun, Folds, Name, Holds, SameName, Clear;
    forall x | NamedAt(dirs, p, x)
      ensures LongRun(Comparing(buf, up), dirs, 0, p) <==> SameName(x, k.w, up)
    {
      RunMatches(dirs, p, x, buf, k.w, up);
    }
    if Clear(dirs, p) {
      ClearHasNone(Comparing(buf, up), dirs, 0, p);
    }
  }
}
