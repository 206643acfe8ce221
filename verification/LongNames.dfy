/** Long file names in Externals/FatFs/ff.c: names of 16-bit units cut into 32-byte directory entries of
    thirteen units each by dir_register (put_lfn), read back (pick_lfn) and compared (cmp_lfn). */
module LongNames {
  import opened Radix

  type Entry = e: seq<Byte> | |e| == 32 witness seq(32, i => 0)
  type Unit = x: int | 0 <= x < 0x1_0000

  const AM_LFN: Byte := 0x0F
  const LLEF: Byte := 0x40           // marks the entry with the end of the name
  const BUFFER: nat := 256           // FF_MAX_LFN + 1

  /** LfnOfs: where the thirteen units lie. */
  const OFFSETS: seq<nat> := [1, 3, 5, 7, 9, 14, 16, 18, 20, 22, 24, 28, 30]

  function LdWord(e: Entry, o: nat): Unit
    requires o + 1 < 32
  {
    e[o] + 0x100 * (e[o + 1] as int)
  }

  function Char(e: Entry, s: nat): Unit
    requires s < 13
  {
    LdWord(e, OFFSETS[s])
  }

  function Cluster(e: Entry): Unit {
    LdWord(e, 26)
  }

  /** The number of an entry without the end mark, as dir_read and dir_find compare it. */
  function Order(e: Entry): nat {
    if e[0] / LLEF % 2 == 1 then e[0] - LLEF else e[0]
  }

  predicate IsLast(e: Entry) {
    e[0] / LLEF % 2 == 1
  }

  /** A name a long entry can hold: 1 to 255 units, none 0 or 0xFFFF. */
  ghost predicate Name(x: seq<Unit>) {
    1 <= |x| < BUFFER && forall i :: 0 <= i < |x| ==> x[i] != 0 && x[i] != 0xFFFF
  }

  /** What lies at position i of the name in its entries: a unit, the terminator, or filling. */
  function At(x: seq<Unit>, i: int): Unit {
    if 0 <= i < |x| then x[i] else if i == |x| then 0 else 0xFFFF
  }

  /** The k-th part (counted from 1) of x in an entry, tied to a short name with checksum sum. */
  ghost predicate IsPart(e: Entry, x: seq<Unit>, k: int, sum: Byte) {
    && k >= 1 && e[0] == k + (if |x| <= 13 * k then LLEF else 0)
    && e[11] == AM_LFN && e[12] == 0 && e[13] == sum && Cluster(e) == 0
    && forall s :: 0 <= s < 13 ==> Char(e, s) == At(x, 13 * (k - 1) + s)
  }

  /** A buffer that holds x and its terminator, anything after it. */
  ghost predicate Holds(buf: seq<Unit>, x: seq<Unit>) {
    |buf| == BUFFER && |x| < BUFFER && buf[..|x|] == x && buf[|x|] == 0
  }

  /** Bytes of an entry that hold no unit of the name. */
  predicate IsField(o: int) {
    o in {0, 11, 12, 13, 26, 27}
  }

  lemma Apart(s: nat, t: nat)
    requires s < 13 && t < 13
    ensures OFFSETS[s] + 1 < 32 && !IsField(OFFSETS[s]) && !IsField(OFFSETS[s] + 1)
    ensures s != t ==> OFFSETS[s] != OFFSETS[t] && OFFSETS[s] + 1 != OFFSETS[t] && OFFSETS[s] != OFFSETS[t] + 1
  {
  }

  /** st_word at the place of unit s. */
  method PutChar(dir: array<Byte>, s: nat, v: Unit)
    requires dir.Length == 32 && s < 13
    modifies dir
    ensures Char(dir[..], s) == v
    ensures forall t :: 0 <= t < 13 && t != s ==> Char(dir[..], t) == old(Char(dir[..], t))
    ensures forall j :: 0 <= j < 32 && IsField(j) ==> dir[j] == old(dir[j])
  {
    ghost var before := dir[..];
    Apart(s, s);
    dir[OFFSETS[s]] := v % 0x100;
    dir[OFFSETS[s] + 1] := v / 0x100;
    forall t | 0 <= t < 13 && t != s
      ensures Char(dir[..], t) == Char(before, t)
    {
      Apart(s, t);
      Apart(t, s);
    }
  }

  /** put_lfn. */
  method PutLfn(lfn: seq<Unit>, dir: array<Byte>, ord: nat, sum: Byte, ghost x: seq<Unit>)
    requires dir.Length == 32 && Holds(lfn, x) && Name(x) && 1 <= ord && 13 * (ord - 1) < |x|
    modifies dir
    ensures IsPart(dir[..], x, ord, sum)
  {
    hide Char, IsField;
    dir[13] := sum;
    dir[11] := AM_LFN;
    dir[12] := 0;
    dir[26] := 0;
    dir[27] := 0;
    ghost var base := 13 * (ord - 1);
    var i := (ord - 1) * 13;
    var s := 0;
    var wc: Unit := 0;
    Fields();
    while s < 13
      invariant s <= 13 && (s > 0 ==> wc == if At(x, base + s - 1) == 0 then 0xFFFF else At(x, base + s - 1))
      invariant i == if base + s <= |x| + 1 then base + s else |x| + 1
      invariant s == 0 ==> wc == 0
      invariant dir[13] == sum && dir[11] == AM_LFN && dir[12] == 0 && dir[26] == 0 && dir[27] == 0
      invariant forall t :: 0 <= t < s ==> Char(dir[..], t) == At(x, base + t)
    {
      if wc != 0xFFFF {
        wc := lfn[i];
        i := i + 1;
      }
      PutChar(dir, s, wc);
      if wc == 0 {
        wc := 0xFFFF;
      }
      s := s + 1;
    }
    ghost var before := dir[..];
    dir[0] := if wc == 0xFFFF || lfn[i] == 0 then ord + LLEF else ord;
    CharsStay(before, dir[..]);
  }

  lemma Fields()
    ensures IsField(0) && IsField(11) && IsField(12) && IsField(13) && IsField(26) && IsField(27)
  {
  }

  /** The entry number holds no unit. */
  lemma CharsStay(e: Entry, e': Entry)
    requires forall j :: 0 < j < 32 ==> e'[j] == e[j]
    ensures forall t :: 0 <= t < 13 ==> Char(e', t) == Char(e, t)
  {
    forall t | 0 <= t < 13
      ensures Char(e', t) == Char(e, t)
    {
      Apart(t, t);
    }
  }

  // --------------------------------------------------------------- one entry read

  /** Where the name ends in an entry: the first unit 0, or 13. */
  ghost predicate StopsAt(e: Entry, t: nat) {
    t <= 13 && (t < 13 ==> Char(e, t) == 0) && forall s :: 0 <= s < t ==> Char(e, s) != 0
  }

  /** Position in the buffer of an entry with order n; UINT arithmetic. */
  function Offset(n: nat): nat {
    if n == 0 then 0x1_0000_0000 - 13 else (n - 1) * 13
  }

  /** What makes pick_lfn accept an entry. */
  ghost predicate Pickable(e: Entry, t: nat) {
    && StopsAt(e, t) && Cluster(e) == 0 && (forall s :: t < s < 13 ==> Char(e, s) == 0xFFFF)
    && Offset(Order(e)) + t < BUFFER + (if t == 13 && !IsLast(e) then 1 else 0)
  }

  /** pick_lfn: takes the units up to the end of the name into the buffer. */
  method PickLfn(buf: array<Unit>, e: Entry) returns (ok: bool, ghost t: nat)
    requires buf.Length == BUFFER
    modifies buf
    ensures StopsAt(e, t) && (ok <==> Pickable(e, t))
    ensures ok ==> forall s :: 0 <= s < t || (s == t && (t < 13 || IsLast(e))) ==>
                     buf[Offset(Order(e)) + s] == if s < t then Char(e, s) else 0
    ensures ok ==> forall i :: 0 <= i < BUFFER && !(Offset(Order(e)) <= i <= Offset(Order(e)) + t) ==> buf[i] == old(buf[i])
    ensures ok && t == 13 && !IsLast(e) && Offset(Order(e)) + 13 < BUFFER ==>
            buf[Offset(Order(e)) + 13] == old(buf[Offset(Order(e)) + 13])
  {
    hide Char, Order, IsLast;
    t := FirstZero(e);
    if Cluster(e) != 0 {
      return false, t;
    }
    var i := Offset(Order(e));
    ghost var base := i;
    var wc: Unit := 1;
    var s := 0;
    while s < 13
      invariant s <= 13 && i == base + (if s <= t then s else t + 1)
      invariant wc != 0 <==> s <= t
      invariant s > 0 ==> base + (if s <= t + 1 then s else t + 1) <= BUFFER
      invariant forall r :: t < r < s ==> Char(e, r) == 0xFFFF
      invariant forall r :: 0 <= r < s && r <= t ==> buf[base + r] == Char(e, r)
      invariant forall r :: 0 <= r < BUFFER && !(base <= r < i) ==> buf[r] == old(buf[r])
    {
      var uc := Char(e, s);
      if wc != 0 {
        if i >= BUFFER {
          return false, t;
        }
        wc := uc;
        buf[i] := uc;
        i := i + 1;
      } else if uc != 0xFFFF {
        return false, t;
      }
      s := s + 1;
    }
    if IsLast(e) && wc != 0 {
      if i >= BUFFER {
        return false, t;
      }
      buf[i] := 0;
    }
    ok := true;
  }

  lemma FirstZero(e: Entry) returns (t: nat)
    ensures StopsAt(e, t)
  {
    t := 0;
    while t < 13 && Char(e, t) != 0
      invariant t <= 13 && forall s :: 0 <= s < t ==> Char(e, s) != 0
    {
      t := t + 1;
    }
  }

  // ------------------------------------------------------------ one entry compared

  /** ff_wtoupper: any case folding that maps only 0 to 0. */
  ghost predicate Folds(up: Unit -> Unit) {
    forall u: Unit :: up(u) == 0 <==> u == 0
  }

  /** Where the thirteen units of an entry are compared in the buffer. */
  function CompareOffset(e: Entry): nat {
    Offset(e[0] % 0x40)
  }

  /** What makes cmp_lfn accept an entry whose part of the name ends at t. */
  ghost predicate Matches(buf: seq<Unit>, e: Entry, up: Unit -> Unit, t: nat)
    requires |buf| == BUFFER
  {
    && StopsAt(e, t) && Cluster(e) == 0 && (forall s :: t < s < 13 ==> Char(e, s) == 0xFFFF)
    && (forall s :: 0 <= s < 13 && s <= t ==>
          CompareOffset(e) + s < BUFFER && up(Char(e, s)) == up(buf[CompareOffset(e) + s]))
    && (IsLast(e) && t == 13 && CompareOffset(e) + 13 < BUFFER ==> buf[CompareOffset(e) + 13] == 0)
  }

  /** cmp_lfn. */
  method CmpLfn(buf: seq<Unit>, e: Entry, up: Unit -> Unit) returns (ok: bool, ghost t: nat)
    requires |buf| == BUFFER
    ensures StopsAt(e, t) && (ok <==> Matches(buf, e, up, t))
  {
    hide Char, IsLast;
    t := FirstZero(e);
    if Cluster(e) != 0 {
      return false, t;
    }
    var i := CompareOffset(e);
    ghost var base := i;
    var wc: Unit := 1;
    var s := 0;
    while s < 13
      invariant s <= 13 && i == base + (if s <= t then s else t + 1)
      invariant wc != 0 <==> s <= t
      invariant forall r :: t < r < s ==> Char(e, r) == 0xFFFF
      invariant s > 0 ==> i <= BUFFER
      invariant forall r :: 0 <= r < s && r <= t ==> base + r < BUFFER && up(Char(e, r)) == up(buf[base + r])
    {
      var uc := Char(e, s);
      if wc != 0 {
        if i >= BUFFER || up(uc) != up(buf[i]) {
          return false, t;
        }
        i := i + 1;
        wc := uc;
      } else if uc != 0xFFFF {
        return false, t;
      }
      s := s + 1;
    }
    NeverAtEnd(e[0] % 0x40);
    if IsLast(e) && wc != 0 && buf[i] != 0 {
      return false, t;
    }
    ok := true;
  }

  /** 13 does not divide 256, so a whole part never ends at the end of the buffer. */
  lemma NeverAtEnd(n: nat)
    requires n < 0x40
    ensures Offset(n) + 12 < BUFFER ==> Offset(n) + 13 < BUFFER
  {
  }

  // ---------------------------------------------------------- a name in a directory

  /** Number of parts of a name. */
  function Parts(x: seq<Unit>): nat {
    (|x| + 12) / 13
  }

  /** sum_sfn: the checksum of a short name. */
  function SumSfn(e: Entry, n: nat): Byte
    requires n <= 11
  {
    if n == 0 then 0
    else
      var sum := SumSfn(e, n - 1);
      (sum / 2 + sum % 2 * 0x80 + e[n - 1]) % 0x100
  }

  function Attr(e: Entry): nat {
    e[11] % 0x40    // AM_MASK
  }

  /** The entries of a name, last part first. */
  ghost predicate Written(es: seq<Entry>, x: seq<Unit>, sum: Byte) {
    |es| == Parts(x) && forall j :: 0 <= j < |es| ==> IsPart(es[j], x, |es| - j, sum)
  }

  /** The loop of dir_register that stores the long entries. */
  method StoreParts(lfn: seq<Unit>, sum: Byte, ghost x: seq<Unit>) returns (es: seq<Entry>)
    requires Holds(lfn, x) && Name(x)
    ensures Written(es, x, sum)
  {
    hide IsPart;
    var len := Length(lfn, x);
    var n: nat := (len + 12) / 13;
    es := [];
    while n > 0
      invariant n <= Parts(x) && |es| == Parts(x) - n
      invariant forall j :: 0 <= j < |es| ==> IsPart(es[j], x, Parts(x) - j, sum)
    {
      var dir := new Byte[32];
      PutLfn(lfn, dir, n, sum, x);
      es := es + [dir[..]];
      n := n - 1;
    }
  }

  /** Gets the length of the name in the buffer. */
  method Length(lfn: seq<Unit>, ghost x: seq<Unit>) returns (len: nat)
    requires Holds(lfn, x) && Name(x)
    ensures len == |x|
  {
    len := 0;
    while lfn[len] != 0
      invariant len <= |x|
      decreases |x| - len
    {
      len := len + 1;
    }
    if len < |x| {
      UnitAt(lfn, x, len);
    }
  }

  lemma UnitAt(lfn: seq<Unit>, x: seq<Unit>, i: nat)
    requires Holds(lfn, x) && Name(x) && i < |x|
    ensures lfn[i] == x[i] && lfn[i] != 0
  {
    assert lfn[i] == lfn[..|x|][i];
  }

  /** What a part of x does to the reading machine. */
  lemma PartPicked(e: Entry, x: seq<Unit>, k: nat, sum: Byte, t: nat)
    requires Name(x) && 1 <= k <= Parts(x) && IsPart(e, x, k, sum) && StopsAt(e, t)
    ensures t == (if |x| < 13 * k then |x| - 13 * (k - 1) else 13) && Pickable(e, t)
    ensures Order(e) == k && (IsLast(e) <==> k == Parts(x)) && Attr(e) == AM_LFN && e[13] == sum
  {
    hide Char;
    var m := if |x| < 13 * k then |x| - 13 * (k - 1) else 13;
    assert m < 13 ==> Char(e, m) == At(x, 13 * (k - 1) + m) == 0;
    assert forall s :: 0 <= s < m ==> Char(e, s) == x[13 * (k - 1) + s];
  }

  // ------------------------------------------------------- a name looked up

  /** Position i of x agrees with what is looked up. */
  ghost predicate Agree(x: seq<Unit>, buf: seq<Unit>, up: Unit -> Unit, i: int)
    requires |buf| == BUFFER && |x| < BUFFER && 0 <= i <= |x|
  {
    up(At(x, i)) == up(buf[i])
  }

  /** x agrees with what is looked up from position i on, its terminator included. */
  ghost predicate AgreeFrom(x: seq<Unit>, buf: seq<Unit>, up: Unit -> Unit, i: int)
    requires |buf| == BUFFER && |x| < BUFFER
  {
    forall j :: 0 <= j <= |x| && i <= j ==> Agree(x, buf, up, j)
  }

  /** The same name but for case. */
  ghost predicate SameName(x: seq<Unit>, w: seq<Unit>, up: Unit -> Unit) {
    |x| == |w| && forall i :: 0 <= i < |x| ==> up(x[i]) == up(w[i])
  }

  /** Agreeing everywhere, up to and including the terminator, is being the same name. */
  lemma AgreeIsSame(x: seq<Unit>, buf: seq<Unit>, w: seq<Unit>, up: Unit -> Unit)
    requires Folds(up) && Name(x) && Name(w) && Holds(buf, w)
    ensures AgreeFrom(x, buf, up, 0) <==> SameName(x, w, up)
  {
    assert forall i :: 0 <= i < |w| ==> buf[i] == buf[..|w|][i] == w[i];
    if AgreeFrom(x, buf, up, 0) {
      assert Agree(x, buf, up, |x|);
      if |w| < |x| {
        Differs(x, buf, w, up);
      }
      forall i | 0 <= i < |x|
        ensures |x| == |w| && up(x[i]) == up(w[i])
      {
        assert Agree(x, buf, up, i);
      }
    }
  }

  /** A shorter name does not agree where it ends. */
  lemma Differs(x: seq<Unit>, buf: seq<Unit>, w: seq<Unit>, up: Unit -> Unit)
    requires Folds(up) && Name(x) && Holds(buf, w) && |w| < |x|
    ensures !Agree(x, buf, up, |w|)
  {
  }

  /** cmp_lfn on part k decides agreement on that part. */
  lemma PartMatches(e: Entry, x: seq<Unit>, k: nat, sum: Byte, t: nat, buf: seq<Unit>, up: Unit -> Unit)
    requires Folds(up) && Name(x) && 1 <= k <= Parts(x) && IsPart(e, x, k, sum) && StopsAt(e, t) && |buf| == BUFFER
    requires k < Parts(x) ==> AgreeFrom(x, buf, up, 13 * k)
    ensures Matches(buf, e, up, t) <==> AgreeFrom(x, buf, up, 13 * (k - 1))
  {
    PartPicked(e, x, k, sum, t);
    CompareAt(e, x, k, sum);
    var base := 13 * (k - 1);
    hide Char, IsLast, CompareOffset;
    if Matches(buf, e, up, t) {
      forall j | 0 <= j <= |x| && base <= j
        ensures Agree(x, buf, up, j)
      {
        if j < base + 13 {
          assert up(Char(e, j - base)) == up(buf[base + (j - base)]);
        }
      }
    }
    if AgreeFrom(x, buf, up, base) {
      forall s | 0 <= s < 13 && s <= t
        ensures base + s < BUFFER && up(Char(e, s)) == up(buf[base + s])
      {
        assert Agree(x, buf, up, base + s);
      }
      if IsLast(e) && t == 13 {
        assert Agree(x, buf, up, base + 13);
      }
      assert forall s :: t < s < 13 ==> Char(e, s) == 0xFFFF;
    }
  }

  lemma CompareAt(e: Entry, x: seq<Unit>, k: nat, sum: Byte)
    requires Name(x) && 1 <= k <= Parts(x) && IsPart(e, x, k, sum)
    ensures CompareOffset(e) == 13 * (k - 1) && Cluster(e) == 0
  {
  }

  lemma MatchedOrder(buf: seq<Unit>, e: Entry, up: Unit -> Unit, t: nat)
    requires |buf| == BUFFER && Matches(buf, e, up, t)
    ensures Order(e) >= 1
  {
    var first := up(Char(e, 0));
    assert CompareOffset(e) + 0 < BUFFER && first == up(buf[CompareOffset(e) + 0]);
  }

  lemma OrderFits(e: Entry, t: nat)
    requires Pickable(e, t)
    ensures Order(e) >= 1
  {
  }
}
