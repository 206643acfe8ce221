/** Externals/ed25519/fe.c: field elements to and from 32 bytes, and the product with 121666. */
module FieldBytes {
  import opened Radix
  import opened FieldElement

  // ------------------------------------------------------- the other carry order

  /** 1.1 * 2^25 and 1.1 * 2^24. */
  ghost predicate Reduced(r: seq<int>) {
    |r| == 10 && forall i :: 0 <= i < 10 ==> -36909875 <= r[i] <= 36909875 && (i % 2 == 1 ==> -18454937 <= r[i] <= 18454937)
  }

  const LIMB: int := 0x1000_0000_0000

  /** Carries out of limbs 9, 1, 3, 5, 7. */
  method CarryOdd(h: seq<int>) returns (r: seq<int>, ghost q: int)
    requires Bounded(h, LIMB)
    ensures |r| == 10 && Value(r) == Value(h) - q * P
    ensures forall i :: 0 <= i < 10 && i % 2 == 1 ==> -0x100_0000 <= r[i] < 0x100_0000
    ensures forall i :: 0 <= i < 10 && i % 2 == 0 ==> -0x1000_0A00_0000 <= r[i] <= 0x1000_0A00_0000
  {
    hide Value, CarryRound, CarryTop, CarryFits;
    q := (h[9] + 0x100_0000) / 0x200_0000;
    r := CarryTop(h);
    r := CarryRound(r, 1);
    r := CarryRound(r, 3);
    r := CarryRound(r, 5);
    r := CarryRound(r, 7);
  }

  /** Carries out of limbs 0, 2, 4, 6, 8. */
  method CarryEven(h: seq<int>) returns (r: seq<int>)
    requires |h| == 10
    requires forall i :: 0 <= i < 10 && i % 2 == 1 ==> -0x100_0000 <= h[i] < 0x100_0000
    requires forall i :: 0 <= i < 10 && i % 2 == 0 ==> -0x1000_0A00_0000 <= h[i] <= 0x1000_0A00_0000
    ensures Reduced(r) && Value(r) == Value(h)
  {
    hide Value, CarryRound, CarryFits;
    r := CarryEvenLow(h);
    r := CarryRound(r, 6);
    r := CarryRound(r, 8);
  }

  method CarryEvenLow(h: seq<int>) returns (r: seq<int>)
    requires |h| == 10
    requires forall i :: 0 <= i < 10 && i % 2 == 1 ==> -0x100_0000 <= h[i] < 0x100_0000
    requires forall i :: 0 <= i < 10 && i % 2 == 0 ==> -0x1000_0A00_0000 <= h[i] <= 0x1000_0A00_0000
    ensures |r| == 10 && Value(r) == Value(h) && forall i :: 6 <= i < 10 ==> r[i] == h[i]
    ensures forall i :: 0 <= i < 6 ==> -Width(i) / 2 - 0x4_0100 <= r[i] <= Width(i) / 2 + 0x4_0100
  {
    hide Value, CarryRound, CarryFits;
    r := CarryRound(h, 0);
    r := CarryRound(r, 2);
    r := CarryRound(r, 4);
  }

  /** 1.1 * 2^26 and 1.1 * 2^25. */
  ghost predicate Loose(f: seq<int>) {
    |f| == 10 && forall i :: 0 <= i < 10 ==> -73819750 <= f[i] <= 73819750 && (i % 2 == 1 ==> -36909875 <= f[i] <= 36909875)
  }

  lemma {:induction false} ValueScale(x: int, s: seq<int>, t: seq<int>)
    requires |s| == |t| && forall k :: 0 <= k < |s| ==> t[k] == x * s[k]
    ensures Value(t) == x * Value(s)
  {
    if |s| > 0 {
      var n := |s| - 1;
      ValueScale(x, s[..n], t[..n]);
      Scale(x, s[n], V(n), Value(s[..n]));
    }
  }

  lemma Scale(x: int, y: int, v: int, u: int)
    ensures x * y * v == x * (y * v) && x * (u + y * v) == x * u + x * (y * v)
  {
  }

  /** fe_mul121666: returns limbs within 1.1 * 2^25 and 1.1 * 2^24. */
  method FeMul121666(h: array<int>, f: array<int>)
    requires h.Length == 10 && Loose(f[..])
    modifies h
    ensures Reduced(h[..]) && Congruent(Value(h[..]), 121666 * Value(old(f[..])))
  {
    hide Value, Congruent;
    ghost var x := f[..];
    var s := f[..];
    var t := seq(10, k requires 0 <= k < 10 => s[k] * 121666);
    ValueScale(121666, x, t);
    var r, q := CarryOdd(t);
    r := CarryEven(r);
    ByMultiple(Value(r), 121666 * Value(x), q);
    Store(h, r);
  }

  // ------------------------------------------------------------------- from bytes

  /** The ten loads of fe_frombytes; the last masks the top bit off. */
  function Loaded(s: seq<Byte>): (h: seq<int>)
    requires |s| == 32
    ensures |h| == 10
  {
    [Load4(s, 0), Load3(s, 4) * 64, Load3(s, 7) * 32, Load3(s, 10) * 8, Load3(s, 13) * 4,
     Load4(s, 16), Load3(s, 20) * 128, Load3(s, 23) * 32, Load3(s, 26) * 16, Load3(s, 29) % 0x80_0000 * 4]
  }

  /** Value, written out. */
  lemma ValueIs(h: seq<int>)
    requires |h| == 10
    ensures Value(h) == h[0]
                        + h[1] * 0x400_0000
                        + h[2] * 0x8_0000_0000_0000
                        + h[3] * 0x2000_0000_0000_0000_0000
                        + h[4] * 0x40_0000_0000_0000_0000_0000_0000
                        + h[5] * 0x1_0000_0000_0000_0000_0000_0000_0000_0000
                        + h[6] * 0x200_0000_0000_0000_0000_0000_0000_0000_0000_0000
                        + h[7] * 0x8_0000_0000_0000_0000_0000_0000_0000_0000_0000_0000_0000
                        + h[8] * 0x1000_0000_0000_0000_0000_0000_0000_0000_0000_0000_0000_0000_0000
                        + h[9] * 0x40_0000_0000_0000_0000_0000_0000_0000_0000_0000_0000_0000_0000_0000_0000
  {
    hide V, Value, Prefix;
    Weights();
    WholePrefix(h);
    PrefixStep(h, 0, 0x1);
    PrefixStep(h, 1, 0x400_0000);
    PrefixStep(h, 2, 0x8_0000_0000_0000);
    PrefixStep(h, 3, 0x2000_0000_0000_0000_0000);
    PrefixStep(h, 4, 0x40_0000_0000_0000_0000_0000_0000);
    PrefixStep(h, 5, 0x1_0000_0000_0000_0000_0000_0000_0000_0000);
    PrefixStep(h, 6, 0x200_0000_0000_0000_0000_0000_0000_0000_0000_0000);
    PrefixStep(h, 7, 0x8_0000_0000_0000_0000_0000_0000_0000_0000_0000_0000_0000);
    PrefixStep(h, 8, 0x1000_0000_0000_0000_0000_0000_0000_0000_0000_0000_0000_0000_0000);
    PrefixStep(h, 9, 0x40_0000_0000_0000_0000_0000_0000_0000_0000_0000_0000_0000_0000_0000_0000);
  }

  /** The value of the first n limbs. */
  function Prefix(h: seq<int>, n: nat): int
    requires n <= |h|
  {
    Value(h[..n])
  }

  lemma PrefixStep(h: seq<int>, n: nat, w: int)
    requires n < |h| && V(n) == w
    ensures Prefix(h, n + 1) == Prefix(h, n) + h[n] * w
  {
    assert h[..n + 1][..n] == h[..n];
  }

  lemma WholePrefix(h: seq<int>)
    ensures Prefix(h, 0) == 0 && Prefix(h, |h|) == Value(h)
  {
    assert h[..|h|] == h;
  }

  /** The bytes from p on, as a number. */
  function Rest(s: seq<Byte>, p: nat): int
    requires p <= |s|
  {
    BytesValue(s[p..])
  }

  lemma WholeRest(s: seq<Byte>)
    ensures Rest(s, 0) == BytesValue(s) && Rest(s, |s|) == 0
  {
    assert s[0..] == s && s[|s|..] == [];
  }

  lemma Take3(s: seq<Byte>, p: nat)
    requires p + 3 <= |s|
    ensures Rest(s, p) == Load3(s, p) + 0x100_0000 * Rest(s, p + 3)
  {
    hide BytesValue;
    TakeByte(s, p);
    TakeByte(s, p + 1);
    TakeByte(s, p + 2);
  }

  lemma Take4(s: seq<Byte>, p: nat)
    requires p + 4 <= |s|
    ensures Rest(s, p) == Load4(s, p) + 0x1_0000_0000 * Rest(s, p + 4)
  {
    hide BytesValue;
    TakeByte(s, p);
    TakeByte(s, p + 1);
    TakeByte(s, p + 2);
    TakeByte(s, p + 3);
  }

  lemma LoadBounds(s: seq<Byte>, p: nat)
    ensures p + 3 <= |s| ==> 0 <= Load3(s, p) < 0x100_0000
    ensures p + 4 <= |s| ==> 0 <= Load4(s, p) < 0x1_0000_0000
  {
  }

  /** The nested sum of the loads, flattened to the weights of the limbs. */
  lemma Flatten(x0: nat, x1: nat, x2: nat, x3: nat, x4: nat, x5: nat, x6: nat, x7: nat, x8: nat, x9: nat)
    requires x0 < 0x1_0000_0000 && x1 < 0x100_0000 && x2 < 0x100_0000 && x3 < 0x100_0000 && x4 < 0x100_0000
        && x5 < 0x1_0000_0000 && x6 < 0x100_0000 && x7 < 0x100_0000 && x8 < 0x100_0000 && x9 < 0x100_0000
    ensures x0 + 0x1_0000_0000
        * (x1 + 0x100_0000 * (x2
        + 0x100_0000 * (x3 + 0x100_0000
        * (x4 + 0x100_0000 * (x5 + 0x1_0000_0000 * (x6 + 0x100_0000 * (x7 + 0x100_0000 * (x8 + 0x100_0000 * (x9)))))))))
         == x0 + x1 * 64 * 0x400_0000 + x2 * 32 * 0x8_0000_0000_0000 + x3 * 8 * 0x2000_0000_0000_0000_0000
             + x4 * 4 * 0x40_0000_0000_0000_0000_0000_0000 + x5 * 1 * 0x1_0000_0000_0000_0000_0000_0000_0000_0000
             + x6 * 128 * 0x200_0000_0000_0000_0000_0000_0000_0000_0000_0000
             + x7 * 32 * 0x8_0000_0000_0000_0000_0000_0000_0000_0000_0000_0000_0000
             + x8 * 16 * 0x1000_0000_0000_0000_0000_0000_0000_0000_0000_0000_0000_0000_0000
            + x9 * 0x100_0000_0000_0000_0000_0000_0000_0000_0000_0000_0000_0000_0000_0000_0000
  {
  }

  /** With the top bit split off, the loads stay below 2^255. */
  lemma BelowTop(x0: nat, x1: nat, x2: nat, x3: nat, x4: nat, x5: nat, x6: nat, x7: nat, x8: nat, x9: nat)
    requires x0 < 0x1_0000_0000 && x1 < 0x100_0000 && x2 < 0x100_0000 && x3 < 0x100_0000 && x4 < 0x100_0000
        && x5 < 0x1_0000_0000 && x6 < 0x100_0000 && x7 < 0x100_0000 && x8 < 0x100_0000 && x9 < 0x100_0000
        && x9 < 0x80_0000
    ensures x0 + 0x1_0000_0000
        * (x1 + 0x100_0000 * (x2
        + 0x100_0000 * (x3 + 0x100_0000
        * (x4 + 0x100_0000 * (x5
        + 0x1_0000_0000 * (x6 + 0x100_0000 * (x7 + 0x100_0000 * (x8 + 0x100_0000 * (x9))))))))) < P + 19
  {
  }

  lemma Peel(x0: int, x1: int, x2: int, x3: int, x4: int, x5: int, x6: int, x7: int, x8: int, x9: int,
             b0: int, b1: int, b2: int, b3: int, b4: int, b5: int, b6: int, b7: int, b8: int, b9: int, b10: int)
    requires b0 == x0 + 0x1_0000_0000 * b1 && b1 == x1 + 0x100_0000 * b2 && b2 == x2 + 0x100_0000 * b3
        && b3 == x3 + 0x100_0000 * b4 && b4 == x4 + 0x100_0000 * b5 && b5 == x5 + 0x1_0000_0000 * b6
        && b6 == x6 + 0x100_0000 * b7 && b7 == x7 + 0x100_0000 * b8 && b8 == x8 + 0x100_0000 * b9
        && b9 == x9 + 0x100_0000 * b10 && b10 == 0
    ensures b0 == x0 + 0x1_0000_0000
        * (x1 + 0x100_0000 * (x2
        + 0x100_0000 * (x3 + 0x100_0000
        * (x4 + 0x100_0000 * (x5 + 0x1_0000_0000 * (x6 + 0x100_0000 * (x7 + 0x100_0000 * (x8 + 0x100_0000 * (x9)))))))))
  {
  }

  /** All loads, one after the other. */
  lemma AllLoads(s: seq<Byte>)
    requires |s| == 32
    ensures BytesValue(s) == Load4(s, 0)
        + 0x1_0000_0000 * (Load3(s, 4)
        + 0x100_0000 * (Load3(s, 7)
        + 0x100_0000 * (Load3(s, 10)
        + 0x100_0000 * (Load3(s, 13)
        + 0x100_0000 * (Load4(s, 16)
        + 0x1_0000_0000 * (Load3(s, 20)
        + 0x100_0000 * (Load3(s, 23) + 0x100_0000 * (Load3(s, 26) + 0x100_0000 * (Load3(s, 29))))))))))
  {
    hide BytesValue, Load3, Load4, Rest;
    WholeRest(s);
    Take4(s, 0);
    Take3(s, 4);
    Take3(s, 7);
    Take3(s, 10);
    Take3(s, 13);
    Take4(s, 16);
    Take3(s, 20);
    Take3(s, 23);
    Take3(s, 26);
    Take3(s, 29);
    Peel(Load4(s, 0), Load3(s, 4), Load3(s, 7), Load3(s, 10), Load3(s, 13), Load4(s, 16), Load3(s, 20), Load3(s, 23),
        Load3(s, 26), Load3(s, 29),
         Rest(s, 0), Rest(s, 4), Rest(s, 7), Rest(s, 10), Rest(s, 13), Rest(s, 16), Rest(s, 20), Rest(s, 23),
             Rest(s, 26), Rest(s, 29), 0);
  }

  /** The top bit of the loads weighs 2^255. */
  lemma SplitTop(x0: nat, x1: nat, x2: nat, x3: nat, x4: nat, x5: nat, x6: nat, x7: nat, x8: nat, x9: nat)
    ensures x0 + 0x1_0000_0000
        * (x1 + 0x100_0000 * (x2
        + 0x100_0000 * (x3 + 0x100_0000
        * (x4 + 0x100_0000 * (x5 + 0x1_0000_0000 * (x6 + 0x100_0000 * (x7 + 0x100_0000 * (x8 + 0x100_0000 * (x9)))))))))
         == x0 + 0x1_0000_0000
             * (x1 + 0x100_0000 * (x2
             + 0x100_0000 * (x3 + 0x100_0000
             * (x4 + 0x100_0000 * (x5
             + 0x1_0000_0000 * (x6 + 0x100_0000 * (x7 + 0x100_0000 * (x8 + 0x100_0000 * ((x9 % 0x80_0000))))))))))
            + x9 / 0x80_0000 * (P + 19)
  {
  }

  /** The limbs are the loads, shifted to their weights. */
  lemma LimbsAreLoads(s: seq<Byte>)
    requires |s| == 32
    ensures Value(Loaded(s)) == Load4(s, 0)
        + 0x1_0000_0000 * (Load3(s, 4)
        + 0x100_0000 * (Load3(s, 7)
        + 0x100_0000 * (Load3(s, 10)
        + 0x100_0000 * (Load3(s, 13)
        + 0x100_0000 * (Load4(s, 16)
        + 0x1_0000_0000 * (Load3(s, 20)
        + 0x100_0000 * (Load3(s, 23) + 0x100_0000 * (Load3(s, 26) + 0x100_0000 * (Load3(s, 29) % 0x80_0000)))))))))
  {
    hide Load3, Load4, Value;
    ValueIs(Loaded(s));
    LoadBounds(s, 0);
    LoadBounds(s, 4);
    LoadBounds(s, 7);
    LoadBounds(s, 10);
    LoadBounds(s, 13);
    LoadBounds(s, 16);
    LoadBounds(s, 20);
    LoadBounds(s, 23);
    LoadBounds(s, 26);
    LoadBounds(s, 29);
    Flatten(Load4(s, 0), Load3(s, 4), Load3(s, 7), Load3(s, 10), Load3(s, 13), Load4(s, 16), Load3(s, 20),
        Load3(s, 23), Load3(s, 26), Load3(s, 29) % 0x80_0000);
  }

  lemma LoadedSmall(s: seq<Byte>)
    requires |s| == 32
    ensures Bounded(Loaded(s), LIMB)
  {
    hide Load3, Load4;
    LoadBounds(s, 0);
    LoadBounds(s, 4);
    LoadBounds(s, 7);
    LoadBounds(s, 10);
    LoadBounds(s, 13);
    LoadBounds(s, 16);
    LoadBounds(s, 20);
    LoadBounds(s, 23);
    LoadBounds(s, 26);
    LoadBounds(s, 29);
  }

  /** The limbs carry the low 255 bits. */
  lemma LoadedValue(s: seq<Byte>)
    requires |s| == 32
    ensures Value(Loaded(s)) == BytesValue(s) % (P + 19)
  {
    hide BytesValue, Load3, Load4, Value, Loaded;
    AllLoads(s);
    LimbsAreLoads(s);
    LoadBounds(s, 0);
    LoadBounds(s, 4);
    LoadBounds(s, 7);
    LoadBounds(s, 10);
    LoadBounds(s, 13);
    LoadBounds(s, 16);
    LoadBounds(s, 20);
    LoadBounds(s, 23);
    LoadBounds(s, 26);
    LoadBounds(s, 29);
    SplitTop(Load4(s, 0), Load3(s, 4), Load3(s, 7), Load3(s, 10), Load3(s, 13), Load4(s, 16), Load3(s, 20),
        Load3(s, 23), Load3(s, 26), Load3(s, 29));
    BelowTop(Load4(s, 0), Load3(s, 4), Load3(s, 7), Load3(s, 10), Load3(s, 13), Load4(s, 16), Load3(s, 20),
        Load3(s, 23), Load3(s, 26), Load3(s, 29) % 0x80_0000);
    ModTop(BytesValue(s), Value(Loaded(s)), Load3(s, 29) / 0x80_0000);
  }

  lemma ModTop(b: int, v: int, t: int)
    requires b == v + t * (P + 19) && 0 <= v < P + 19
    ensures v == b % (P + 19)
  {
    QuotientIs(b, P + 19, t, v);
  }

  /** fe_frombytes: the low 255 bits modulo P; the top bit is ignored. */
  method FeFromBytes(h: array<int>, s: seq<Byte>)
    requires h.Length == 10 && |s| == 32
    modifies h
    ensures Reduced(h[..]) && Congruent(Value(h[..]), BytesValue(s) % (P + 19))
  {
    hide Value, Congruent, BytesValue, Loaded;
    LoadedValue(s);
    LoadedSmall(s);
    var r, q := CarryOdd(Loaded(s));
    r := CarryEven(r);
    ByMultiple(Value(r), BytesValue(s) % (P + 19), q);
    Store(h, r);
  }

  // -------------------------------------------------------------------- to bytes

  /** The carry into limb n when c enters limb 0 and nothing is kept. */
  function CarryInto(h: seq<int>, c: int, n: nat): int
    requires n <= |h|
    decreases n
  {
    if n == 0 then c else (h[n - 1] + CarryInto(h, c, n - 1)) / Width(n - 1)
  }

  /** Chained floor divisions are one. */
  lemma {:induction false} CarryIntoIs(h: seq<int>, c: int, n: nat)
    requires n <= |h|
    ensures CarryInto(h, c, n) == (Prefix(h, n) + c) / V(n)
  {
    if n == 0 {
      WholePrefix(h);
    } else {
      CarryIntoIs(h, c, n - 1);
      PrefixStep(h, n - 1, V(n - 1));
      VStep(n - 1, V(n - 1));
      hide V, Prefix, Width;
      PushDivision(Prefix(h, n - 1) + c, h[n - 1], V(n - 1), Width(n - 1));
    }
  }

  lemma PushDivision(a: int, x: int, v: int, w: int)
    requires v > 0 && w > 0
    ensures w * v > 0 && (a + x * v) / (w * v) == (x + a / v) / w
  {
    DivDiv(a + x * v, v, w);
    assert v * (a / v + x) == v * (a / v) + x * v;
    QuotientIs(a + x * v, v, a / v + x, a % v);
    assert w * v == v * w;
  }

  /** The guess fe_tobytes makes from the top limb. */
  function TopGuess(h: seq<int>): int
    requires |h| == 10
  {
    (19 * h[9] + 0x100_0000) / 0x200_0000
  }

  const TOP: int := 0x40_0000_0000_0000_0000_0000_0000_0000_0000_0000_0000_0000_0000_0000_0000   // 2^230

  lemma RestSmall(h: seq<int>)
    requires Loose(h)
    ensures -0x80_0000_0000_0000_0000_0000_0000_0000_0000_0000_0000_0000_0000_0000_0000 < Value(h) - h[9] * TOP
            < 0x80_0000_0000_0000_0000_0000_0000_0000_0000_0000_0000_0000_0000_0000_0000
  {
    hide Value;
    ValueIs(h);
  }

  /** The guess is close enough: with value q P + r it exceeds 19 q by 0 to 19. */
  lemma GuessIsClose(v: int, top: int, g: int, q: int, r: int)
    requires v == q * P + r && 0 <= r < P && -36909875 <= top <= 36909875 && g == (19 * top + 0x100_0000) / 0x200_0000
    requires -0x80_0000_0000_0000_0000_0000_0000_0000_0000_0000_0000_0000_0000_0000_0000 < v - top * TOP
    requires v - top * TOP < 0x80_0000_0000_0000_0000_0000_0000_0000_0000_0000_0000_0000_0000_0000_0000
    ensures 0 <= g - 19 * q <= 19
  {
    assert -3 <= q <= 3;
    assert 0x200_0000 * g <= 19 * top + 0x100_0000 < 0x200_0000 * (g + 1);
  }

  /** The quotient fe_tobytes computes is the one by P. */
  lemma QuotientByP(h: seq<int>)
    requires Loose(h)
    ensures CarryInto(h, TopGuess(h), 10) == Value(h) / P
  {
    hide Value, CarryInto, V, Prefix;
    var v, g := Value(h), TopGuess(h);
    CarryIntoIs(h, g, 10);
    WholePrefix(h);
    Weights();
    RestSmall(h);
    var q, r := v / P, v % P;
    GuessIsClose(v, h[9], g, q, r);
    QuotientIs(v + g, P + 19, q, r + g - 19 * q);
  }

  // floor carries

  /** The carry shifted back and both limbs after it fit int32. */
  ghost predicate FloorFits(x: int, y: int, i: int) {
    var carry := x / Width(i);
    FitsInt32(carry * Width(i)) && FitsInt32(x - carry * Width(i)) && FitsInt32(y + carry)
  }

  lemma SmallFloorFits(x: int, y: int, i: int)
    requires -0x4800_0000 <= x <= 0x4800_0000 && -0x4800_0000 <= y <= 0x4800_0000
    ensures FloorFits(x, y, i)
  {
  }

  lemma FloorRange(x: int, i: int)
    ensures 0 <= x - x / Width(i) * Width(i) < Width(i)
  {
  }

  /** carry = h[i] >> width; h[i+1] += carry; h[i] -= carry << width. */
  function CarryFloor(h: seq<int>, i: nat): (r: seq<int>)
    requires i + 1 < |h|
    requires -0x4800_0000 <= h[i] <= 0x4800_0000 && -0x4800_0000 <= h[i + 1] <= 0x4800_0000
    ensures |r| == |h| && forall j :: 0 <= j < |h| && j != i && j != i + 1 ==> r[j] == h[j]
    ensures 0 <= r[i] < Width(i) && r[i + 1] - h[i + 1] == h[i] / Width(i)
    ensures FloorFits(h[i], h[i + 1], i) && Value(r) == Value(h)
  {
    SmallFloorFits(h[i], h[i + 1], i);
    FloorRange(h[i], i);
    hide FloorFits, Width, V, Value;
    var carry := h[i] / Width(i);
    CarryWeights(carry, i);
    AddTo(AddTo(h, i + 1, carry), i, -(carry * Width(i)))
  }

  ghost predicate Normal(h: seq<int>) {
    |h| == 10 && forall i :: 0 <= i < 10 ==> 0 <= h[i] < Width(i)
  }

  /** Nine floor carries, and what is left of limb 9 without its carry. */
  method CarryUp(h: seq<int>) returns (r: seq<int>, ghost c: int)
    requires |h| == 10 && forall i :: 0 <= i < 10 ==> -0x4700_0000 <= h[i] <= 0x4700_0000
    ensures Normal(r) && Value(r) == Value(h) - c * (P + 19)
    ensures FitsInt32(c * 0x200_0000)
  {
    hide Value;
    var t := CarryUpLow(h);
    t := CarryUpHigh(t);
    var carry := t[9] / 0x200_0000;
    r := AddTo(t, 9, -(carry * 0x200_0000));
    c := carry;
    DropTop(c);
  }

  method CarryUpHigh(h: seq<int>) returns (r: seq<int>)
    requires |h| == 10 && forall i :: 0 <= i < 5 ==> 0 <= h[i] < Width(i)
    requires -0x4700_0080 <= h[5] <= 0x4700_0080 && forall i :: 6 <= i < 10 ==> -0x4700_0000 <= h[i] <= 0x4700_0000
    ensures |r| == 10 && Value(r) == Value(h) && -0x4700_0080 <= r[9] <= 0x4700_0080
    ensures forall i :: 0 <= i < 9 ==> 0 <= r[i] < Width(i)
  {
    hide Value, CarryFloor, FloorFits;
    r := CarryFloor(h, 5);
    r := CarryFloor(r, 6);
    r := CarryFloor(r, 7);
    r := CarryFloor(r, 8);
  }

  method CarryUpLow(h: seq<int>) returns (r: seq<int>)
    requires |h| == 10 && forall i :: 0 <= i < 10 ==> -0x4700_0000 <= h[i] <= 0x4700_0000
    ensures |r| == 10 && Value(r) == Value(h)
    ensures forall i :: 0 <= i < 5 ==> 0 <= r[i] < Width(i)
    ensures -0x4700_0080 <= r[5] <= 0x4700_0080
    ensures forall i :: 6 <= i < 10 ==> -0x4700_0000 <= r[i] <= 0x4700_0000
  {
    hide Value, CarryFloor, FloorFits;
    r := CarryFloor(h, 0);
    r := CarryFloor(r, 1);
    r := CarryFloor(r, 2);
    r := CarryFloor(r, 3);
    r := CarryFloor(r, 4);
  }

  lemma DropTop(c: int)
    ensures -(c * 0x200_0000) * V(9) == -(c * (P + 19))
  {
    Weights();
  }

  /** Normal limbs stay below 2^255. */
  lemma {:induction false} NormalPrefix(h: seq<int>, n: nat)
    requires Normal(h) && n <= 10
    ensures 0 <= Prefix(h, n) < V(n)
  {
    if n == 0 {
      WholePrefix(h);
    } else {
      NormalPrefix(h, n - 1);
      PrefixStep(h, n - 1, V(n - 1));
      VStep(n - 1, V(n - 1));
      hide V, Prefix;
      DigitBelow(Prefix(h, n - 1), h[n - 1], V(n - 1), Width(n - 1));
    }
  }

  lemma DigitBelow(a: int, x: int, v: int, w: int)
    requires 0 <= a < v && 0 <= x < w
    ensures 0 <= a + x * v < w * v
  {
    var d := w - 1 - x;
    if x > 0 {
      MulAtLeast(v, x);
    }
    if d > 0 {
      MulAtLeast(v, d);
    }
    assert v * d == v * w - v - v * x;
  }

  /** The limbs of the canonical representative. */
  method Canonical(h: seq<int>) returns (r: seq<int>)
    requires Loose(h)
    ensures Normal(r) && Value(r) == Value(h) % P
  {
    hide Value, Normal, CarryInto, V;
    QuotientByP(h);
    var q := Quotient(h);
    var t := AddTo(h, 0, 19 * q);
    assert V(0) == 1 by { Weights(); }
    ghost var c;
    r, c := CarryUp(t);
    NormalPrefix(r, 10);
    NormalLength(r);
    WholePrefix(r);
    assert V(10) == P + 19 by { Weights(); }
    OneRepresentative(Value(h), Value(r), q, c);
  }

  lemma NormalLength(h: seq<int>)
    requires Normal(h)
    ensures |h| == 10
  {
  }

  lemma OneRepresentative(v: int, r: int, q: int, c: int)
    requires q == v / P && r == v + 19 * q - c * (P + 19) && 0 <= r < P + 19
    ensures r == v % P
  {
    var m := v % P;
    assert v == q * P + m;
    assert r == m + (q - c) * (P + 19);
  }

  /** One of the lines that compute q: limb n joins in. No int32 overflows. */
  method Join(h: seq<int>, q: int, n: nat, ghost g: int) returns (r: int)
    requires Loose(h) && n < 10 && q == CarryInto(h, g, n) && -0x100 <= q <= 0x100
    ensures r == CarryInto(h, g, n + 1) && -0x100 <= r <= 0x100 && FitsInt32(h[n] + q)
  {
    r := (h[n] + q) / Width(n);
  }

  /** The eleven lines that compute q. */
  method Quotient(h: seq<int>) returns (q: int)
    requires Loose(h)
    ensures q == CarryInto(h, TopGuess(h), 10) && -0x100 <= q <= 0x100 && FitsInt32(19 * h[9] + 0x100_0000)
  {
    ghost var g := TopGuess(h);
    q := (19 * h[9] + 0x100_0000) / 0x200_0000;
    hide CarryInto;
    StartsWith(h, g);
    q := Join(h, q, 0, g);
    q := Join(h, q, 1, g);
    q := Join(h, q, 2, g);
    q := Join(h, q, 3, g);
    q := Join(h, q, 4, g);
    q := Join(h, q, 5, g);
    q := Join(h, q, 6, g);
    q := Join(h, q, 7, g);
    q := Join(h, q, 8, g);
    q := Join(h, q, 9, g);
  }

  lemma StartsWith(h: seq<int>, c: int)
    ensures CarryInto(h, c, 0) == c
  {
  }

  // ---------------------------------------------------------------------- bytes out

  /** The 32 stores of fe_tobytes; where it joins two limbs with `|` they share no bits. */
  function Stored(h: seq<int>): (b: seq<Byte>)
    requires |h| == 10
    ensures |b| == 32
  {
    [Low(h[0]), Low(h[0] / 256), Low(h[0] / 65536), Low(h[0] / 16777216 + h[1] * 4),
     Low(h[1] / 64), Low(h[1] / 16384), Low(h[1] / 4194304 + h[2] * 8), Low(h[2] / 32),
     Low(h[2] / 8192), Low(h[2] / 2097152 + h[3] * 32), Low(h[3] / 8), Low(h[3] / 2048),
     Low(h[3] / 524288 + h[4] * 64), Low(h[4] / 4), Low(h[4] / 1024), Low(h[4] / 262144),
     Low(h[5]), Low(h[5] / 256), Low(h[5] / 65536), Low(h[5] / 16777216 + h[6] * 2),
     Low(h[6] / 128), Low(h[6] / 32768), Low(h[6] / 8388608 + h[7] * 8), Low(h[7] / 32),
     Low(h[7] / 8192), Low(h[7] / 2097152 + h[8] * 16), Low(h[8] / 16), Low(h[8] / 4096),
     Low(h[8] / 1048576 + h[9] * 64), Low(h[9] / 4), Low(h[9] / 1024), Low(h[9] / 262144)]
  }

  /** Bits of limb n. */
  function Bits(n: int): (b: nat)
    ensures b == 25 || b == 26
  {
    if n % 2 == 0 then 26 else 25
  }

  /** Bit position of limb n. */
  function Position(n: nat): nat {
    25 * n + (n + 1) / 2
  }

  lemma WidthBits(n: int)
    ensures Width(n) == Pow2(Bits(n)) && Pow2(8) == 256
  {
    Powers26();
  }

  lemma Powers26()
    ensures Pow2(25) == 0x200_0000 && Pow2(26) == 0x400_0000 && Pow2(8) == 256
  {
    assert Pow2(5) == 32;
    hide Pow2;
    Pow2Of8();
    Pow2Add(8, 8);
    Pow2Add(16, 5);
    Pow2Add(5, 21);
    Pow2Add(5, 20);
    Pow2Add(8, 12);
    Pow2Of12();
  }

  lemma Pow2Of12()
    ensures Pow2(12) == 4096
  {
  }

  lemma {:induction false} WeightIsPower(n: nat)
    ensures V(n) == Pow2(Position(n))
  {
    if n > 0 {
      WeightIsPower(n - 1);
      WidthBits(n - 1);
      VStep(n - 1, V(n - 1));
      hide V, Pow2, Width;
      assert Position(n) == Bits(n - 1) + Position(n - 1);
      Pow2Add(Bits(n - 1), Position(n - 1));
    }
  }

  /** The modulus is 2^255 - 19. */
  lemma ModulusIs()
    ensures P + 19 == Pow2(255)
  {
    Weights();
    WeightIsPower(10);
    assert Position(10) == 255;
  }

  /** Limbs from n on, as a number. */
  function Suffix(h: seq<int>, n: nat): int
    requires |h| == 10
    decreases 10 - n
  {
    if n >= 10 then 0 else h[n] + Width(n) * Suffix(h, n + 1)
  }

  lemma {:induction false} SplitAt(h: seq<int>, n: nat)
    requires |h| == 10 && n <= 10
    ensures Value(h) == Prefix(h, n) + V(n) * Suffix(h, n)
    decreases 10 - n
  {
    if n == 10 {
      WholePrefix(h);
    } else {
      SplitAt(h, n + 1);
      PrefixStep(h, n, V(n));
      VStep(n, V(n));
      hide V, Prefix, Value;
      Regrouped(V(n), h[n], Width(n), Suffix(h, n + 1));
    }
  }

  lemma Regrouped(v: int, x: int, w: int, s: int)
    ensures x * v + w * v * s == v * (x + w * s)
  {
    assert v * (w * s) == w * v * s;
  }

  /** Shifting all limbs right to bit r of limb i. */
  lemma ShiftAcross(h: seq<int>, i: nat, r: nat)
    requires Normal(h) && i < 10 && r <= Bits(i)
    ensures Value(h) / Pow2(Position(i) + r) == h[i] / Pow2(r) + Pow2(Bits(i) - r) * Suffix(h, i + 1)
  {
    NormalPrefix(h, i);
    SplitAt(h, i);
    WeightIsPower(i);
    WidthBits(i);
    var s := Suffix(h, i + 1);
    assert Suffix(h, i) == h[i] + Width(i) * s;
    hide Pow2, Value, V, Prefix, Suffix, Normal, Width, Position;
    QuotientIs(Value(h), V(i), Suffix(h, i), Prefix(h, i));
    Pow2Add(Position(i), r);
    DivDiv(Value(h), Pow2(Position(i)), Pow2(r));
    Pow2Add(r, Bits(i) - r);
    ShiftSum(h[i], s, Pow2(r), Pow2(Bits(i) - r));
  }

  lemma ShiftSum(x: int, v: int, p: int, q: int)
    requires p > 0
    ensures (x + p * q * v) / p == x / p + q * v
  {
    assert p * q * v == p * (q * v);
    assert p * (x / p + q * v) == p * (x / p) + p * (q * v);
    QuotientIs(x + p * q * v, p, x / p + q * v, x % p);
  }

  /** Limb i shifted right by r, joined with limb i+1 where the byte runs over. */
  function Joined(h: seq<int>, i: nat, r: nat): int
    requires |h| == 10 && i < 10 && r <= Bits(i)
  {
    h[i] / Pow2(r) + if r + 8 <= Bits(i) || i == 9 then 0 else h[i + 1] * Pow2(Bits(i) - r)
  }

  /** The byte at bit r of limb i. */
  lemma BitsAbove(h: seq<int>, i: nat, r: nat)
    requires Normal(h) && i < 10 && r <= Bits(i)
    ensures Value(h) / Pow2(Position(i) + r) % 256 == Joined(h, i, r) % 256
  {
    hide Pow2, Value, Suffix, Bits, Width, Position, Normal;
    ShiftAcross(h, i, r);
    NormalLength(h);
    if i == 9 {
      NothingAbove(h);
    } else if r + 8 <= Bits(i) {
      WholeByte(h[i] / Pow2(r), Bits(i) - r, Suffix(h, i + 1));
    } else {
      SuffixStep(h, i + 1);
      DropHighLimb(h[i] / Pow2(r), Pow2(Bits(i) - r), h[i + 1], i + 1, Suffix(h, i + 2));
    }
  }

  lemma NothingAbove(h: seq<int>)
    requires |h| == 10
    ensures Suffix(h, 10) == 0
  {
  }

  lemma SuffixStep(h: seq<int>, i: nat)
    requires |h| == 10 && i < 10
    ensures Suffix(h, i) == h[i] + Width(i) * Suffix(h, i + 1)
  {
  }

  lemma WholeByte(x: int, n: nat, v: int)
    requires n >= 8
    ensures (x + Pow2(n) * v) % 256 == x % 256
  {
    Pow2Of8();
    hide Pow2;
    Pow2Add(8, n - 8);
    DropHighByte(x, Pow2(n), Pow2(n - 8), v);
  }

  lemma DropHighLimb(x: int, q: int, y: int, i: int, v: int)
    ensures (x + q * (y + Width(i) * v)) % 256 == (x + y * q) % 256
  {
    var k := Width(i) / 256;
    assert Width(i) == 256 * k;
    hide Width;
    Spread256(q, y, k, v);
    AddMultiple(x + y * q, k * (q * v));
  }

  lemma Spread256(q: int, y: int, k: int, v: int)
    ensures q * (y + 256 * k * v) == y * q + 256 * (k * (q * v))
  {
    assert q * (256 * k * v) == 256 * (k * (q * v));
  }

  lemma AddMultiple(x: int, k: int)
    ensures (x + 256 * k) % 256 == x % 256
  {
  }

  lemma SmallPowers()
    ensures Pow2(0) == 1 && Pow2(1) == 2 && Pow2(2) == 4 && Pow2(3) == 8 && Pow2(4) == 16 && Pow2(5) == 32
        && Pow2(6) == 64
    ensures Pow2(7) == 128 && Pow2(8) == 256 && Pow2(10) == 1024 && Pow2(11) == 2048 && Pow2(12) == 4096
    ensures Pow2(13) == 8192 && Pow2(14) == 16384 && Pow2(15) == 32768 && Pow2(16) == 65536
    ensures Pow2(18) == 262144 && Pow2(19) == 524288 && Pow2(20) == 1048576
    ensures Pow2(21) == 0x20_0000 && Pow2(22) == 0x40_0000 && Pow2(23) == 0x80_0000 && Pow2(24) == 0x100_0000
  {
  }

  /** The limb of byte j. */
  function LimbOf(j: nat): nat {
    (2 * (8 * j) + 1) / 51
  }

  lemma StoredJoined0(h: seq<int>, j: nat)
    requires |h| == 10 && 0 <= j < 8
    ensures LimbOf(j) < 10 && 0 <= 8 * j - Position(LimbOf(j)) <= Bits(LimbOf(j))
    ensures Stored(h)[j] == Low(Joined(h, LimbOf(j), 8 * j - Position(LimbOf(j))))
  {
    hide Pow2, Low;
    SmallPowers();
    var b := Stored(h);
    if j == 0 {
      assert b[0] == Low(Joined(h, 0, 0));
    } else if j == 1 {
      assert b[1] == Low(Joined(h, 0, 8));
    } else if j == 2 {
      assert b[2] == Low(Joined(h, 0, 16));
    } else if j == 3 {
      assert b[3] == Low(Joined(h, 0, 24));
    } else if j == 4 {
      assert b[4] == Low(Joined(h, 1, 6));
    } else if j == 5 {
      assert b[5] == Low(Joined(h, 1, 14));
    } else if j == 6 {
      assert b[6] == Low(Joined(h, 1, 22));
    } else if j == 7 {
      assert b[7] == Low(Joined(h, 2, 5));
    }
  }

  lemma StoredJoined8(h: seq<int>, j: nat)
    requires |h| == 10 && 8 <= j < 16
    ensures LimbOf(j) < 10 && 0 <= 8 * j - Position(LimbOf(j)) <= Bits(LimbOf(j))
    ensures Stored(h)[j] == Low(Joined(h, LimbOf(j), 8 * j - Position(LimbOf(j))))
  {
    hide Pow2, Low;
    SmallPowers();
    var b := Stored(h);
    if j == 8 {
      assert b[8] == Low(Joined(h, 2, 13));
    } else if j == 9 {
      assert b[9] == Low(Joined(h, 2, 21));
    } else if j == 10 {
      assert b[10] == Low(Joined(h, 3, 3));
    } else if j == 11 {
      assert b[11] == Low(Joined(h, 3, 11));
    } else if j == 12 {
      assert b[12] == Low(Joined(h, 3, 19));
    } else if j == 13 {
      assert b[13] == Low(Joined(h, 4, 2));
    } else if j == 14 {
      assert b[14] == Low(Joined(h, 4, 10));
    } else if j == 15 {
      assert b[15] == Low(Joined(h, 4, 18));
    }
  }

  lemma StoredJoined16(h: seq<int>, j: nat)
    requires |h| == 10 && 16 <= j < 24
    ensures LimbOf(j) < 10 && 0 <= 8 * j - Position(LimbOf(j)) <= Bits(LimbOf(j))
    ensures Stored(h)[j] == Low(Joined(h, LimbOf(j), 8 * j - Position(LimbOf(j))))
  {
    hide Pow2, Low;
    SmallPowers();
    var b := Stored(h);
    if j == 16 {
      assert b[16] == Low(Joined(h, 5, 0));
    } else if j == 17 {
      assert b[17] == Low(Joined(h, 5, 8));
    } else if j == 18 {
      assert b[18] == Low(Joined(h, 5, 16));
    } else if j == 19 {
      assert b[19] == Low(Joined(h, 5, 24));
    } else if j == 20 {
      assert b[20] == Low(Joined(h, 6, 7));
    } else if j == 21 {
      assert b[21] == Low(Joined(h, 6, 15));
    } else if j == 22 {
      assert b[22] == Low(Joined(h, 6, 23));
    } else if j == 23 {
      assert b[23] == Low(Joined(h, 7, 5));
    }
  }

  lemma StoredJoined24(h: seq<int>, j: nat)
    requires |h| == 10 && 24 <= j < 32
    ensures LimbOf(j) < 10 && 0 <= 8 * j - Position(LimbOf(j)) <= Bits(LimbOf(j))
    ensures Stored(h)[j] == Low(Joined(h, LimbOf(j), 8 * j - Position(LimbOf(j))))
  {
    hide Pow2, Low;
    SmallPowers();
    var b := Stored(h);
    if j == 24 {
      assert b[24] == Low(Joined(h, 7, 13));
    } else if j == 25 {
      assert b[25] == Low(Joined(h, 7, 21));
    } else if j == 26 {
      assert b[26] == Low(Joined(h, 8, 4));
    } else if j == 27 {
      assert b[27] == Low(Joined(h, 8, 12));
    } else if j == 28 {
      assert b[28] == Low(Joined(h, 8, 20));
    } else if j == 29 {
      assert b[29] == Low(Joined(h, 9, 2));
    } else if j == 30 {
      assert b[30] == Low(Joined(h, 9, 10));
    } else if j == 31 {
      assert b[31] == Low(Joined(h, 9, 18));
    }
  }

  lemma StoredJoined(h: seq<int>, j: nat)
    requires |h| == 10 && j < 32
    ensures LimbOf(j) < 10 && 0 <= 8 * j - Position(LimbOf(j)) <= Bits(LimbOf(j))
    ensures Stored(h)[j] == Low(Joined(h, LimbOf(j), 8 * j - Position(LimbOf(j))))
  {
    hide Stored, Joined;
    if j < 8 {
      StoredJoined0(h, j);
    } else if j < 16 {
      StoredJoined8(h, j);
    } else if j < 24 {
      StoredJoined16(h, j);
    } else {
      StoredJoined24(h, j);
    }
  }

  lemma StoredDigit(h: seq<int>, j: nat)
    requires Normal(h) && j < 32
    ensures Stored(h)[j] == Value(h) / Pow2(8 * j) % 256
  {
    hide Stored, Value, Pow2, Joined, LimbOf;
    NormalLength(h);
    StoredJoined(h, j);
    BitsAbove(h, LimbOf(j), 8 * j - Position(LimbOf(j)));
  }

  /** The bytes carry the value. */
  lemma StoredValue(h: seq<int>)
    requires Normal(h)
    ensures BytesValue(Stored(h)) == Value(h)
  {
    hide BytesValue, Value, Pow2, Normal, V, Prefix, Stored;
    NormalLength(h);
    NormalPrefix(h, 10);
    WholePrefix(h);
    WeightIsPower(10);
    Below256(Value(h));
    var b := Stored(h);
    forall j | 0 <= j < 32
      ensures b[j] == Value(h) / Pow2(8 * j) % 256
    {
      StoredDigit(h, j);
    }
    BytesOfDigits(b, Value(h));
  }

  lemma Below256(v: int)
    requires v < Pow2(Position(10))
    ensures v < Pow2(8 * 32)
  {
    assert Position(10) == 255;
    hide Pow2;
    Pow2Double(255);
  }

  /** fe_tobytes: the unique 32 bytes below P that stand for the element. */
  method FeToBytes(h: seq<int>) returns (s: seq<Byte>)
    requires Loose(h)
    ensures |s| == 32 && BytesValue(s) == Value(h) % P
  {
    hide Value, BytesValue, Normal, Stored;
    var r := Canonical(h);
    NormalLength(r);
    s := Stored(r);
    StoredValue(r);
  }

  /** From bytes and back: the low 255 bits, reduced. */
  lemma ThroughField(s: seq<Byte>, h: seq<int>, t: seq<Byte>)
    requires |s| == 32 && Congruent(Value(h), BytesValue(s) % (P + 19)) && BytesValue(t) == Value(h) % P
    ensures BytesValue(t) == BytesValue(s) % (P + 19) % P
  {
    hide Value, BytesValue;
    SameRemainder(Value(h), BytesValue(s) % (P + 19));
  }

  lemma SameRemainder(a: int, b: int)
    requires Congruent(a, b)
    ensures a % P == b % P
  {
    var q :| a == b + q * P;
    QuotientIs(a, P, b / P + q, b % P);
  }

  /** Two elements get the same bytes exactly when they are congruent. */
  lemma SameBytes(g: seq<int>, h: seq<int>, s: seq<Byte>, t: seq<Byte>)
    requires |s| == |t| == 32 && BytesValue(s) == Value(g) % P && BytesValue(t) == Value(h) % P
    ensures s == t <==> Congruent(Value(g), Value(h))
  {
    if BytesValue(s) == BytesValue(t) {
      BytesValueInjective(s, t);
      hide Value, BytesValue;
      var q := Value(g) / P - Value(h) / P;
      assert Value(g) == Value(h) + q * P;
    } else if Congruent(Value(g), Value(h)) {
      SameRemainder(Value(g), Value(h));
    }
  }
}
