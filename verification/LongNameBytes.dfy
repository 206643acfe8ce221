/** Long directory entries byte by byte: which bytes of an entry of Externals/FatFs/ff.c spell the units of a
    name, and in which order, for what put_lfn writes, pick_lfn takes and cmp_lfn compares. */
module LongNameBytes {
  import opened Radix
  import opened LongNames
  import opened LongNameScan

  /** The bytes of an entry that hold units of the name. */
  function NameBytes(e: Entry): (b: seq<Byte>)
    ensures |b| == 26
  {
    e[1..11] + e[14..26] + e[28..32]
  }

  /** Units as bytes, the low byte of each first. */
  function LittleEndian(us: seq<Unit>): (b: seq<Byte>)
    ensures |b| == 2 * |us|
  {
    if us == [] then [] else [us[0] % 256, us[0] / 256] + LittleEndian(us[1..])
  }

  /** The units that bytes spell. */
  function Units(b: seq<Byte>): (us: seq<Unit>)
    requires |b| % 2 == 0
    ensures |us| == |b| / 2
  {
    if b == [] then [] else [b[0] + 0x100 * (b[1] as int)] + Units(b[2..])
  }

  lemma {:induction false} UnitsOfBytes(us: seq<Unit>)
    ensures Units(LittleEndian(us)) == us
  {
    if us != [] {
      UnitsOfBytes(us[1..]);
      assert LittleEndian(us)[2..] == LittleEndian(us[1..]);
    }
  }

  lemma {:induction false} BytesOfUnits(b: seq<Byte>)
    requires |b| % 2 == 0
    ensures LittleEndian(Units(b)) == b
  {
    if b != [] {
      BytesOfUnits(b[2..]);
      assert Units(b)[1..] == Units(b[2..]);
      assert b == [b[0], b[1]] + b[2..];
    }
  }

  lemma {:induction false} UnitAtIs(b: seq<Byte>, s: nat)
    requires |b| % 2 == 0 && 2 * s + 1 < |b|
    ensures Units(b)[s] == b[2 * s] + 0x100 * (b[2 * s + 1] as int)
  {
    if s > 0 {
      UnitAtIs(b[2..], s - 1);
    }
  }

  /** The units of an entry lie in its name bytes, in order. */
  lemma CharsAreUnits(e: Entry)
    ensures |Units(NameBytes(e))| == 13 && forall s :: 0 <= s < 13 ==> Char(e, s) == Units(NameBytes(e))[s]
  {
    forall s | 0 <= s < 13
      ensures Char(e, s) == Units(NameBytes(e))[s]
    {
      UnitAtIs(NameBytes(e), s);
      hide Units;
    }
  }

  /** x, its terminator, and filling. */
  function Filled(x: seq<Unit>): seq<Unit> {
    x + [0] + seq(13, i => 0xFFFF)
  }

  /** The part of a name numbered k, byte by byte. */
  lemma PartBytes(e: Entry, x: seq<Unit>, k: nat, sum: Byte)
    requires 1 <= k && 13 * (k - 1) < |x|
    ensures IsPart(e, x, k, sum) <==>
              && e[0] == (if |x| <= 13 * k then k + 64 else k) && e[11..14] == [15, 0, sum] && e[26..28] == [0, 0]
              && e[1..11] + e[14..26] + e[28..32] == LittleEndian(Filled(x)[13 * (k - 1)..13 * k])
  {
    var part := Filled(x)[13 * (k - 1)..13 * k];
    assert forall s :: 0 <= s < 13 ==> part[s] == At(x, 13 * (k - 1) + s);
    CharsAreUnits(e);
    UnitsOfBytes(part);
    BytesOfUnits(NameBytes(e));
    FieldBytes(e, sum);
    hide Char, Units, LittleEndian, Cluster;
    if forall s :: 0 <= s < 13 ==> Char(e, s) == At(x, 13 * (k - 1) + s) {
      assert Units(NameBytes(e)) == part;
    }
  }

  lemma FieldBytes(e: Entry, sum: Byte)
    ensures e[11..14] == [15, 0, sum] <==> e[11] == 15 && e[12] == 0 && e[13] == sum
    ensures e[26..28] == [0, 0] <==> Cluster(e) == 0
  {
    if e[11..14] == [15, 0, sum] {
      assert e[11] == e[11..14][0] && e[12] == e[11..14][1] && e[13] == e[11..14][2];
    }
    if e[26..28] == [0, 0] {
      assert e[26] == e[26..28][0] && e[27] == e[26..28][1];
    }
  }

  /** The name bytes of the n entries before p, nearest first. */
  function RawName(dirs: seq<Entry>, p: nat, n: nat): seq<Byte>
    requires n <= p <= |dirs|
  {
    if n == 0 then [] else RawName(dirs, p, n - 1) + NameBytes(dirs[p - n])
  }

  /** The entries before the short one that carries the name x spell x, from the nearest on. */
  lemma SpellsName(dirs: seq<Entry>, p: nat, x: seq<Unit>)
    requires NamedAt(dirs, p, x)
    ensures RawName(dirs, p, Parts(x)) == LittleEndian(Filled(x)[..13 * Parts(x)])
  {
    SpellsParts(dirs, p, x, Parts(x));
  }

  lemma {:induction false} SpellsParts(dirs: seq<Entry>, p: nat, x: seq<Unit>, n: nat)
    requires NamedAt(dirs, p, x) && n <= Parts(x) <= p < |dirs|
    ensures RawName(dirs, p, n) == LittleEndian(Filled(x)[..13 * n])
  {
    hide NamedAt, SumSfn, Written;
    if n > 0 {
      SpellsParts(dirs, p, x, n - 1);
      PartAt(dirs, p, x, n);
      PartBytes(dirs[p - n], x, n, SumSfn(dirs[p], 11));
      var u, v := Filled(x)[..13 * (n - 1)], Filled(x)[13 * (n - 1)..13 * n];
      assert Filled(x)[..13 * n] == u + v;
      EndToEnd(u, v);
    }
  }

  lemma {:induction false} EndToEnd(u: seq<Unit>, v: seq<Unit>)
    ensures LittleEndian(u + v) == LittleEndian(u) + LittleEndian(v)
  {
    if u == [] {
      assert u + v == v;
    } else {
      EndToEnd(u[1..], v);
      assert (u + v)[1..] == u[1..] + v;
    }
  }

  // ------------------------------------------------------------- units taken and compared

  /** us is a front of t units of a name: whole, or ended by 0 and filled up. */
  predicate Front(us: seq<Unit>, t: nat) {
    && t <= |us| && 0 !in us[..t]
    && (t < |us| ==> us[t] == 0) && forall s :: t < s < |us| ==> us[s] == 0xFFFF
  }

  lemma FrontIs(e: Entry, t: nat)
    ensures Front(Units(NameBytes(e)), t) && e[26..28] == [0, 0]
       <==> StopsAt(e, t) && Cluster(e) == 0 && forall s :: t < s < 13 ==> Char(e, s) == 0xFFFF
  {
    CharsAreUnits(e);
    FieldBytes(e, 0);
    hide Char, Units, NameBytes, Cluster;
    if Front(Units(NameBytes(e)), t) {
      forall s | 0 <= s < t
        ensures Char(e, s) != 0
      {
        assert Units(NameBytes(e))[..t][s] == Char(e, s);
      }
    }
  }

  /** The number of an entry is its first byte without bit 6, which marks the end of the name. */
  lemma OrderIs(e: Entry)
    ensures Order(e) == e[0] % 64 + e[0] / 128 * 128
    ensures IsLast(e) <==> e[0] / 64 % 2 == 1
  {
  }

  /** What pick_lfn accepts: cluster field 0, a front of t units, a number of one or more, and room in the
      256 units of the buffer for what it stores. */
  lemma PickableBytes(e: Entry, t: nat)
    ensures Pickable(e, t) <==>
              && e[26..28] == [0, 0] && Front(Units(NameBytes(e)), t)
              && Order(e) >= 1 && 13 * (Order(e) - 1) + t < (if t == 13 && !IsLast(e) then 257 else 256)
  {
    FrontIs(e, t);
    hide Char, Units, NameBytes, Order, IsLast, Cluster, StopsAt, Front;
  }

  /** Where pick_lfn leaves the units it takes: the n-th thirteen units of the buffer, with the terminator. */
  lemma KeptBytes(buf: seq<Unit>, e: Entry, t: nat)
    requires Pickable(e, t) && |buf| == 256
    ensures Order(e) >= 1 && 13 * (Order(e) - 1) + t <= 256 && t <= 13
    ensures t < 13 || IsLast(e) ==> 13 * (Order(e) - 1) + t < 256
    ensures var base := 13 * (Order(e) - 1);
      Kept(buf, e) <==> buf[base..base + t] == Units(NameBytes(e))[..t] && (t < 13 || IsLast(e) ==> buf[base + t] == 0)
  {
    PickableBytes(e, t);
    CharsAreUnits(e);
    KeptUnits(buf, e, t);
    SliceIs(buf, 13 * (Order(e) - 1), Units(NameBytes(e)), t);
    hide Char, Units, NameBytes, Order, IsLast, Cluster, Pickable, Kept;
  }

  lemma SliceIs(buf: seq<Unit>, base: nat, u: seq<Unit>, t: nat)
    requires t <= |u| && base + t <= |buf|
    ensures buf[base..base + t] == u[..t] <==> forall s :: 0 <= s < t ==> buf[base + s] == u[s]
  {
    if buf[base..base + t] == u[..t] {
      assert forall s :: 0 <= s < t ==> buf[base + s] == buf[base..base + t][s] == u[..t][s];
    }
  }

  lemma KeptUnits(buf: seq<Unit>, e: Entry, t: nat)
    requires Pickable(e, t) && |buf| == 256 && t <= 13 && Offset(Order(e)) + t <= 256
    requires t < 13 || IsLast(e) ==> Offset(Order(e)) + t < 256
    ensures Kept(buf, e) <==>
              && (forall s :: 0 <= s < t ==> buf[Offset(Order(e)) + s] == Char(e, s))
              && (t < 13 || IsLast(e) ==> buf[Offset(Order(e)) + t] == 0)
  {
    hide Char, Order, IsLast, Pickable, Offset;
    if Kept(buf, e) {
      forall s: nat | s < t
        ensures buf[Offset(Order(e)) + s] == Char(e, s)
      {
        assert KeptUnit(buf, e, t, s);
      }
      assert t < 13 || IsLast(e) ==> KeptUnit(buf, e, t, t);
    }
    forall t': nat | Pickable(e, t')
      ensures t' == t
    {
      PickedOnce(e, t, t');
    }
  }

  lemma PickedOnce(e: Entry, t: nat, t': nat)
    requires Pickable(e, t) && Pickable(e, t')
    ensures t == t'
  {
    StopsOnce(e, t, t');
  }

  /** What cmp_lfn accepts: cluster field 0, a front of t units, each of them and the terminator equal under
      case folding to what stands at that place of the buffer, where the name must end if the entry is marked. */
  lemma MatchesBytes(buf: seq<Unit>, e: Entry, up: Unit -> Unit, t: nat)
    requires |buf| == 256
    ensures var n, u := e[0] % 64, Units(NameBytes(e));
      Matches(buf, e, up, t) <==>
        && e[26..28] == [0, 0] && Front(u, t) && n >= 1
        && (forall s :: 0 <= s < 13 && s <= t ==> 13 * (n - 1) + s < 256 && up(u[s]) == up(buf[13 * (n - 1) + s]))
        && (IsLast(e) && t == 13 && 13 * n < 256 ==> buf[13 * n] == 0)
  {
    FrontIs(e, t);
    CharsAreUnits(e);
    var n, u := e[0] % 64, Units(NameBytes(e));
    CompareIs(e);
    hide Char, Units, NameBytes, Order, IsLast, Cluster, StopsAt, Front, CompareOffset;
    if Matches(buf, e, up, t) {
      var first := up(Char(e, 0));
      assert CompareOffset(e) + 0 < BUFFER && first == up(buf[CompareOffset(e) + 0]);
      forall s | 0 <= s < 13 && s <= t
        ensures 13 * (n - 1) + s < 256 && up(u[s]) == up(buf[13 * (n - 1) + s])
      {
        assert up(Char(e, s)) == up(buf[CompareOffset(e) + s]);
      }
    }
  }

  lemma CompareIs(e: Entry)
    ensures CompareOffset(e) == if e[0] % 64 == 0 then 0x1_0000_0000 - 13 else 13 * (e[0] as int % 64 - 1)
  {
  }

  /** The kinds of entries: attributes are the six low bits of byte 11, 8 of them a label and 15 a long entry;
      first byte 0 ends the table, 0xE5 is a deleted entry, 0x2E a dot. */
  lemma EntryKinds(e: Entry)
    ensures var a := e[11] % 64;
      && (Short(e) <==> e[0] !in {0, 0xE5, 0x2E} && a / 8 % 2 == 0)
      && (Listed(e) <==> e[0] !in {0, 0xE5, 0x2E} && a !in {8, 40, 15})
      && (Findable(e) <==> e[0] !in {0, 0xE5} && a / 8 % 2 == 0)
      && (forall r: Reader :: Long(r, e) <==> e[0] !in {0, 0xE5} && a == 15 && (r.Picking? ==> e[0] != 0x2E))
  {
  }

  // ---------------------------------------------------------------------- the checksum

  function Bit(v: nat, j: nat): nat {
    v / Pow2(j) % 2
  }

  /** The checksum takes in one byte more by turning its eight bits one place to the right, around the end,
      and adding the byte. */
  lemma SumTurns(e: Entry, n: nat) returns (turned: Byte)
    requires n < 11
    ensures forall j :: 0 <= j < 8 ==> Bit(turned, j) == Bit(SumSfn(e, n), (j + 1) % 8)
    ensures SumSfn(e, 0) == 0 && SumSfn(e, n + 1) == (turned + e[n]) % 256
  {
    var sum := SumSfn(e, n);
    turned := sum / 2 + sum % 2 * 128;
    forall j | 0 <= j < 8
      ensures Bit(turned, j) == Bit(SumSfn(e, n), (j + 1) % 8)
    {
      Turned(sum / 2, sum % 2, j);
    }
  }

  lemma Turned(high: nat, low: nat, j: nat)
    requires high < 128 && low < 2 && j < 8
    ensures Bit(high + low * 128, j) == Bit(2 * high + low, (j + 1) % 8)
  {
    Pow2Is();
    if j < 7 {
      Pow2Add(j, 7 - j);
      Pow2Double(6 - j);
      Pow2Double(j);
      DivDiv(2 * high + low, 2, Pow2(j));
      Cut(high, low, Pow2(j), Pow2(6 - j));
    } else {
      QuotientIs(high + low * 128, 128, low, high);
    }
  }

  lemma Cut(high: nat, low: nat, d: nat, m: nat)
    requires d > 0 && d * (2 * m) == 128
    ensures (high + low * 128) / d % 2 == high / d % 2
  {
    var more := m * low;
    assert low * 128 == d * (2 * more) by {
      assert d * (2 * m) * low == d * (2 * more);
    }
    QuotientIs(high + d * (2 * more), d, high / d + 2 * more, high % d);
    EvenMore(high / d, more);
  }

  lemma EvenMore(x: nat, y: nat)
    ensures (x + 2 * y) % 2 == x % 2
  {
  }

  lemma Pow2Is()
    ensures Pow2(0) == 1 && Pow2(7) == 128
  {
  }
}
