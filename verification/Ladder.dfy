/** Externals/ed25519/key_exchange.c on limbs, against the ladder on field elements; and the few limb
    operations of fe.c that only it uses. */
module Ladder {
  import opened Radix
  import opened FieldElement
  import opened FieldBytes
  import opened FieldPowers
  import opened Ed25519
  import ScalarField
  import ScalarMult

  // ------------------------------------------------------------ field elements

  function Plus(a: int, b: int): int {
    (a + b) % P
  }

  function Minus(a: int, b: int): int {
    (a - b) % P
  }

  function Times'(a: int, b: int): int {
    a * b % P
  }

  function Inverse(a: int): int {
    Exp(a, P - 2) % P
  }

  /** A projective coordinate x : z. */
  datatype Ratio = Ratio(x: int, z: int)

  /** The quotient, or 0 when z is. */
  function Affine(r: Ratio): int {
    Times'(r.x, Inverse(r.z))
  }

  function Double(r: Ratio): Ratio {
    var sum, diff := Plus(r.x, r.z), Minus(r.x, r.z);
    var aa, bb := Times'(sum, sum), Times'(diff, diff);
    var e := Minus(aa, bb);
    Ratio(Times'(aa, bb), Times'(e, Plus(bb, Times'(121666, e))))
  }

  /** Adds two points whose difference has coordinate u. */
  function DiffAdd(u: int, r: Ratio, s: Ratio): Ratio {
    var da, cb := Times'(Minus(s.x, s.z), Plus(r.x, r.z)), Times'(Plus(s.x, s.z), Minus(r.x, r.z));
    var sum, diff := Plus(da, cb), Minus(da, cb);
    Ratio(Times'(sum, sum), Times'(u, Times'(diff, diff)))
  }

  /** The two ratios after the n highest bits, which spell v. */
  function Rung(u: int, v: nat, n: nat): (Ratio, Ratio) {
    if n == 0 then (Ratio(1, 0), Ratio(u, 1)) else
    var (lo, hi) := Rung(u, v / 2, n - 1);
    if v % 2 == 0 then (Double(lo), DiffAdd(u, lo, hi)) else (DiffAdd(u, hi, lo), Double(hi))
  }

  function Secret(u: int, v: nat): int {
    Affine(Rung(u, v, 255).0)
  }

  /** The first coordinate of a key: (y + 1) / (1 - y), the top bit ignored. */
  function FromKey(key: seq<Byte>): int {
    var y := BytesValue(key) % (P + 19) % P;
    Times'(Plus(y, 1), Inverse(Minus(1, y)))
  }

  // --------------------------------------------------------- limbs for elements

  /** Limbs in the range the products return, standing for v. */
  ghost predicate Small(h: seq<int>, v: int) {
    Reduced(h) && Value(h) % P == v
  }

  /** Limbs in the range of a sum or difference. */
  ghost predicate Large(h: seq<int>, v: int) {
    Loose(h) && Value(h) % P == v
  }

  lemma SmallIsLarge(h: seq<int>, v: int)
    requires Small(h, v)
    ensures Large(h, v)
  {
  }

  lemma LargeIsWide(h: seq<int>, v: int)
    requires Large(h, v)
    ensures Wide(h) && Congruent(Value(h), v)
  {
    hide Value;
    assert Value(h) == v + Value(h) / P * P;
  }

  lemma TightIsSmall(h: seq<int>, w: int)
    requires Tight(h) && Congruent(Value(h), w)
    ensures Small(h, w % P)
  {
    hide Value;
    SameRemainder(Value(h), w);
  }

  lemma ProductOf(h: seq<int>, f: seq<int>, g: seq<int>, a: int, b: int)
    requires Large(f, a) && Large(g, b) && Tight(h) && Congruent(Value(h), Value(f) * Value(g))
    ensures Small(h, Times'(a, b))
  {
    hide Value, Large, Tight, Congruent, Small, Wide;
    LargeIsWide(f, a);
    LargeIsWide(g, b);
    CongruentMul(Value(f), a, Value(g), b);
    CongruentTrans(Value(h), Value(f) * Value(g), a * b);
    TightIsSmall(h, a * b);
  }

  method Multiply(h: array<int>, f: array<int>, g: array<int>, ghost a: int, ghost b: int)
    requires h.Length == 10 && Large(f[..], a) && Large(g[..], b)
    modifies h
    ensures Small(h[..], Times'(a, b))
  {
    ghost var x, y := f[..], g[..];
    LargeIsWide(x, a);
    LargeIsWide(y, b);
    hide Value, Large, Tight, Wide, Congruent, Small, Times';
    FeMul(h, f, g);
    ProductOf(h[..], x, y, a, b);
  }

  method Square(h: array<int>, f: array<int>, ghost a: int)
    requires h.Length == 10 && Large(f[..], a)
    modifies h
    ensures Small(h[..], Times'(a, a))
  {
    ghost var x := f[..];
    LargeIsWide(x, a);
    hide Value, Large, Tight, Wide, Congruent, Small, Times';
    FeSq(h, f);
    ProductOf(h[..], x, x, a, a);
  }

  method Scale121666(h: array<int>, f: array<int>, ghost a: int)
    requires h.Length == 10 && Large(f[..], a)
    modifies h
    ensures Small(h[..], Times'(121666, a))
  {
    ghost var x := f[..];
    LargeIsWide(x, a);
    FeMul121666(h, f);
    hide Value, Congruent;
    assert Congruent(121666, 121666) by {
      ByMultiple(121666, 121666, 0);
    }
    CongruentMul(121666, 121666, Value(x), a);
    CongruentTrans(Value(h[..]), 121666 * Value(x), 121666 * a);
    SameRemainder(Value(h[..]), 121666 * a);
  }

  method Invert(h: array<int>, f: array<int>, ghost a: int)
    requires h.Length == f.Length == 10 && Large(f[..], a)
    modifies h
    ensures Small(h[..], Inverse(a))
  {
    ghost var x := f[..];
    LargeIsWide(x, a);
    hide Value, Large, Tight, Wide, Congruent, Small, Exp;
    FeInvert(h, f);
    CongruentExp(Value(x), a, P - 2);
    CongruentTrans(Value(h[..]), Exp(Value(x), P - 2), Exp(a, P - 2));
    TightIsSmall(h[..], Exp(a, P - 2));
  }

  lemma {:induction false} CongruentExp(a: int, b: int, n: nat)
    requires Congruent(a, b)
    ensures Congruent(Exp(a, n), Exp(b, n))
  {
    if n == 0 {
      ByMultiple(1, 1, 0);
    } else {
      CongruentExp(a, b, n - 1);
      hide Congruent;
      CongruentMul(a, b, Exp(a, n - 1), Exp(b, n - 1));
    }
  }

  // --------------------------------------------- sums, differences, swaps, constants

  lemma {:induction false} ValueOfSum(f: seq<int>, g: seq<int>, h: seq<int>, sign: int)
    requires |f| == |g| == |h| && forall i :: 0 <= i < |f| ==> h[i] == f[i] + sign * g[i]
    ensures Value(h) == Value(f) + sign * Value(g)
  {
    if |f| > 0 {
      var n := |f| - 1;
      ValueOfSum(f[..n], g[..n], h[..n], sign);
      SumLimb(f[n], g[n], sign, V(n), Value(g[..n]));
    }
  }

  lemma SumLimb(x: int, y: int, sign: int, w: int, v: int)
    ensures (x + sign * y) * w + sign * v == x * w + sign * (v + y * w)
  {
  }

  lemma SumOf(f: seq<int>, g: seq<int>, h: seq<int>, a: int, b: int, sign: int)
    requires Small(f, a) && Small(g, b) && |h| == 10 && (sign == 1 || sign == -1)
    requires forall i :: 0 <= i < 10 ==> h[i] == f[i] + sign * g[i]
    ensures Large(h, (a + sign * b) % P)
  {
    ValueOfSum(f, g, h, sign);
    hide Value;
    SumModulo(Value(f), Value(g), a, b, sign);
  }

  lemma SumModulo(x: int, y: int, a: int, b: int, sign: int)
    requires x % P == a && y % P == b && (sign == 1 || sign == -1)
    ensures (x + sign * y) % P == (a + sign * b) % P
  {
    var q, r := x / P, y / P;
    assert sign * (r * P + b) == sign * r * P + sign * b;
    ByMultiple(x + sign * y, a + sign * b, -(q + sign * r));
    SameRemainder(x + sign * y, a + sign * b);
  }

  /** fe_add. */
  method FeAdd(h: array<int>, f: array<int>, g: array<int>, ghost a: int, ghost b: int)
    requires h.Length == f.Length == g.Length == 10 && Small(f[..], a) && Small(g[..], b)
    modifies h
    ensures Large(h[..], Plus(a, b))
  {
    hide Small, Large;
    ghost var x, y := f[..], g[..];
    var s := seq(10, i requires 0 <= i < 10 reads f, g => f[i] + g[i]);
    Store(h, s);
    SumOf(x, y, h[..], a, b, 1);
  }

  /** fe_sub. */
  method FeSub(h: array<int>, f: array<int>, g: array<int>, ghost a: int, ghost b: int)
    requires h.Length == f.Length == g.Length == 10 && Small(f[..], a) && Small(g[..], b)
    modifies h
    ensures Large(h[..], Minus(a, b))
  {
    hide Small, Large;
    ghost var x, y := f[..], g[..];
    var s := seq(10, i requires 0 <= i < 10 reads f, g => f[i] - g[i]);
    Store(h, s);
    SumOf(x, y, h[..], a, b, -1);
  }

  /** fe_cswap: exchanges f and g if b is 1. */
  method FeCswap(f: array<int>, g: array<int>, b: int)
    requires f.Length == g.Length == 10 && 0 <= b <= 1 && f != g
    modifies f, g
    ensures f[..] == (if b == 1 then old(g[..]) else old(f[..])) && g[..] == if b == 1 then old(f[..]) else old(g[..])
  {
    var x, y := f[..], g[..];
    if b == 1 {
      Store(f, y);
      Store(g, x);
    }
  }

  /** fe_0 and fe_1. */
  method FeConstant(h: array<int>, k: int)
    requires h.Length == 10 && 0 <= k <= 1
    modifies h
    ensures Small(h[..], k)
  {
    var s := [k, 0, 0, 0, 0, 0, 0, 0, 0, 0];
    ValueIs(s);
    hide Value;
    Store(h, s);
  }

  // ------------------------------------------------------------------- one step

  ghost predicate Apart(x1: array<int>, x2: array<int>, z2: array<int>, x3: array<int>, z3: array<int>,
                        tmp0: array<int>, tmp1: array<int>) {
    && x1.Length == x2.Length == z2.Length == x3.Length == z3.Length == tmp0.Length == tmp1.Length == 10
    && x1 !in {x2, z2, x3, z3, tmp0, tmp1} && x2 !in {z2, x3, z3, tmp0, tmp1} && z2 !in {x3, z3, tmp0, tmp1}
    && x3 !in {z3, tmp0, tmp1} && z3 !in {tmp0, tmp1} && tmp0 != tmp1
  }

  /** Two arrays that stand for a ratio. */
  ghost predicate Holds(x: seq<int>, z: seq<int>, r: Ratio) {
    Small(x, r.x) && Small(z, r.z)
  }

  /** Up to the squares of sum and difference. */
  method Squares(x1: array<int>, x2: array<int>, z2: array<int>, x3: array<int>, z3: array<int>,
                 tmp0: array<int>, tmp1: array<int>, ghost r: Ratio, ghost s: Ratio)
    requires Apart(x1, x2, z2, x3, z3, tmp0, tmp1)
    requires Small(x2[..], r.x) && Small(z2[..], r.z) && Small(x3[..], s.x) && Small(z3[..], s.z)
    modifies x2, z2, x3, z3, tmp0, tmp1
    ensures Small(tmp1[..], Times'(Plus(r.x, r.z), Plus(r.x, r.z)))
    ensures Small(tmp0[..], Times'(Minus(r.x, r.z), Minus(r.x, r.z)))
    ensures Small(z3[..], Times'(Minus(s.x, s.z), Plus(r.x, r.z)))
    ensures Small(z2[..], Times'(Plus(s.x, s.z), Minus(r.x, r.z)))
  {
    hide Small, Large, Plus, Minus, Times';
    FeSub(tmp0, x3, z3, s.x, s.z);
    FeSub(tmp1, x2, z2, r.x, r.z);
    FeAdd(x2, x2, z2, r.x, r.z);
    FeAdd(z2, x3, z3, s.x, s.z);
    Multiply(z3, tmp0, x2, Minus(s.x, s.z), Plus(r.x, r.z));
    Multiply(z2, z2, tmp1, Plus(s.x, s.z), Minus(r.x, r.z));
    Square(tmp0, tmp1, Minus(r.x, r.z));
    Square(tmp1, x2, Plus(r.x, r.z));
  }

  /** From there to the end of the step. */
  method Combine(x1: array<int>, x2: array<int>, z2: array<int>, x3: array<int>, z3: array<int>,
                 tmp0: array<int>, tmp1: array<int>, ghost u: int, ghost aa: int, ghost bb: int, ghost da: int,
                     ghost cb: int)
    requires Apart(x1, x2, z2, x3, z3, tmp0, tmp1) && Small(x1[..], u)
    requires Small(tmp1[..], aa) && Small(tmp0[..], bb) && Small(z3[..], da) && Small(z2[..], cb)
    modifies x2, z2, x3, z3, tmp0, tmp1
    ensures Small(x2[..], Times'(aa, bb))
    ensures var e := Minus(aa, bb); Small(z2[..], Times'(e, Plus(bb, Times'(121666, e))))
    ensures Small(x3[..], Times'(Plus(da, cb), Plus(da, cb)))
    ensures Small(z3[..], Times'(u, Times'(Minus(da, cb), Minus(da, cb))))
  {
    SmallIsLarge(tmp0[..], bb);
    SmallIsLarge(tmp1[..], aa);
    SmallIsLarge(x1[..], u);
    hide Small, Large, Plus, Minus, Times';
    ghost var e := Minus(aa, bb);
    FeAdd(x3, z3, z2, da, cb);
    FeSub(z2, z3, z2, da, cb);
    Multiply(x2, tmp1, tmp0, aa, bb);
    FeSub(tmp1, tmp1, tmp0, aa, bb);
    Square(z2, z2, Minus(da, cb));
    Scale121666(z3, tmp1, e);
    Square(x3, x3, Plus(da, cb));
    FeAdd(tmp0, tmp0, z3, bb, Times'(121666, e));
    SmallIsLarge(z2[..], Times'(Minus(da, cb), Minus(da, cb)));
    Multiply(z3, x1, z2, u, Times'(Minus(da, cb), Minus(da, cb)));
    Multiply(z2, tmp1, tmp0, e, Plus(bb, Times'(121666, e)));
  }

  /** The body of the loop after the swaps. */
  method Step(x1: array<int>, x2: array<int>, z2: array<int>, x3: array<int>, z3: array<int>,
              tmp0: array<int>, tmp1: array<int>, ghost u: int, ghost r: Ratio, ghost s: Ratio)
    requires Apart(x1, x2, z2, x3, z3, tmp0, tmp1) && Small(x1[..], u)
    requires Holds(x2[..], z2[..], r) && Holds(x3[..], z3[..], s)
    modifies x2, z2, x3, z3, tmp0, tmp1
    ensures Holds(x2[..], z2[..], Double(r)) && Holds(x3[..], z3[..], DiffAdd(u, r, s))
  {
    hide Small, Plus, Minus, Times', Apart;
    ghost var sum, diff := Plus(r.x, r.z), Minus(r.x, r.z);
    FrameX1(x1, x2, z2, x3, z3, tmp0, tmp1);
    Squares(x1, x2, z2, x3, z3, tmp0, tmp1, r, s);
    Combine(x1, x2, z2, x3, z3, tmp0, tmp1, u, Times'(sum, sum), Times'(diff, diff),
            Times'(Minus(s.x, s.z), sum), Times'(Plus(s.x, s.z), diff));
  }

  lemma FrameX1(x1: array<int>, x2: array<int>, z2: array<int>, x3: array<int>, z3: array<int>, tmp0: array<int>,
      tmp1: array<int>)
    requires Apart(x1, x2, z2, x3, z3, tmp0, tmp1)
    ensures x1 !in {x2, z2, x3, z3, tmp0, tmp1}
  {
  }

  // ------------------------------------------------------------------- the bits

  /** Bit `pos` of a little-endian byte string. */
  lemma BitAt(b: seq<Byte>, pos: nat)
    requires pos / 8 < |b|
    ensures b[pos / 8] / Pow2(pos % 8) % 2 == BytesValue(b) / Pow2(pos) % 2
  {
    hide Pow2, BytesValue;
    ByteAt(b, pos / 8);
    BitOfDigit(BytesValue(b), pos / 8, pos % 8);
    assert 8 * (pos / 8) + pos % 8 == pos;
  }

  lemma BitOfDigit(v: nat, j: nat, k: nat)
    requires k < 8
    ensures v / Pow2(8 * j) % 256 / Pow2(k) % 2 == v / Pow2(8 * j + k) % 2
  {
    hide Pow2;
    Pow2Add(8 * j, k);
    DivDiv(v, Pow2(8 * j), Pow2(k));
    Pow2Add(k, 8 - k);
    Pow2Of8();
    Pow2Double(7 - k);
    BitOfRemainder(v / Pow2(8 * j), Pow2(k), Pow2(7 - k));
  }

  lemma BitOfRemainder(y: nat, p: int, t: int)
    requires p > 0 && t > 0 && p * (2 * t) == 256
    ensures y % 256 / p % 2 == y / p % 2
  {
    var q, r := y / 256, y % 256;
    ScalarField.DropMultiple(r, p, 2, t * q);
    assert p * (2 * (t * q)) == p * (2 * t) * q;
  }

  lemma TopDone(v: nat)
    requires v < Pow2(255)
    ensures High(v, 255) == 0
  {
    hide Pow2;
    QuotientIs(v, Pow2(255), 0, v);
  }

  lemma NextBit(v: nat, pos: nat)
    ensures v / Pow2(pos) == 2 * (v / Pow2(pos + 1)) + v / Pow2(pos) % 2
  {
    hide Pow2;
    Pow2Add(pos, 1);
    ScalarMult.SmallPow2(1);
    DivDiv(v, Pow2(pos), 2);
  }

  /** The registers stand for the two ratios, exchanged if a swap is still due. */
  ghost predicate Deferred(x2: seq<int>, z2: seq<int>, x3: seq<int>, z3: seq<int>, swap: int, r: (Ratio, Ratio)) {
    Holds(x2, z2, if swap == 0 then r.0 else r.1) && Holds(x3, z3, if swap == 0 then r.1 else r.0)
  }

  function Climb(u: int, r: (Ratio, Ratio), bit: int): (Ratio, Ratio) {
    if bit == 0 then (Double(r.0), DiffAdd(u, r.0, r.1)) else (DiffAdd(u, r.1, r.0), Double(r.1))
  }

  /** One turn of the loop: the swap that is due, then the step for bit b. */
  method Turn(x1: array<int>, x2: array<int>, z2: array<int>, x3: array<int>, z3: array<int>,
              tmp0: array<int>, tmp1: array<int>, due: int, b: int, ghost u: int, ghost r: (Ratio, Ratio))
    requires Apart(x1, x2, z2, x3, z3, tmp0, tmp1) && 0 <= due <= 1 && 0 <= b <= 1
    requires Small(x1[..], u) && Deferred(x2[..], z2[..], x3[..], z3[..], due, r)
    modifies x2, z2, x3, z3, tmp0, tmp1
    ensures Deferred(x2[..], z2[..], x3[..], z3[..], b, Climb(u, r, b))
  {
    hide Small, Double, DiffAdd;
    var swap := if due == b then 0 else 1;
    FeCswap(x2, x3, swap);
    FeCswap(z2, z3, swap);
    Step(x1, x2, z2, x3, z3, tmp0, tmp1, u, if b == 0 then r.0 else r.1, if b == 0 then r.1 else r.0);
  }

  /** What comes after the loop: the last swap, and the quotient in 32 bytes. */
  method Quotient(x2: array<int>, z2: array<int>, x3: array<int>, z3: array<int>, due: int, ghost r: (Ratio, Ratio))
    returns (sharedSecret: seq<Byte>)
    requires x2.Length == z2.Length == x3.Length == z3.Length == 10 && x2 !in {z2, x3, z3} && z2 !in {x3, z3}
        && x3 != z3
    requires 0 <= due <= 1 && Deferred(x2[..], z2[..], x3[..], z3[..], due, r)
    modifies x2, z2, x3, z3
    ensures |sharedSecret| == 32 && BytesValue(sharedSecret) == Affine(r.0)
  {
    hide Small, Large, BytesValue, Times', Inverse;
    FeCswap(x2, x3, due);
    FeCswap(z2, z3, due);
    SmallIsLarge(z2[..], r.0.z);
    Invert(z2, z2, r.0.z);
    SmallIsLarge(x2[..], r.0.x);
    SmallIsLarge(z2[..], Inverse(r.0.z));
    Multiply(x2, x2, z2, r.0.x, Inverse(r.0.z));
    sharedSecret := Pack(x2[..], Affine(r.0));
  }

  /** Bit `pos` of e. */
  function Bit(e: seq<Byte>, pos: nat): (b: int)
    requires pos < 8 * |e|
    ensures 0 <= b <= 1
  {
    hide Pow2;
    e[pos / 8] / Pow2(pos % 8) % 2
  }

  lemma BitOf(e: seq<Byte>, pos: nat)
    requires pos < 8 * |e|
    ensures Bit(e, pos) == High(BytesValue(e), pos) % 2
  {
    BitAt(e, pos);
  }

  /** The first n + 1 bits are the first n and one more. */
  lemma RungStep(u: int, v: nat, pos: nat)
    requires pos <= 254
    ensures Rung(u, High(v, pos), 255 - pos) == Climb(u, Rung(u, High(v, pos + 1), 254 - pos), High(v, pos) % 2)
  {
    NextBit(v, pos);
    hide Pow2, Double, DiffAdd;
  }

  /** The loop over the bits of e, from bit 254 down. */
  method Ascend(x1: array<int>, x2: array<int>, z2: array<int>, x3: array<int>, z3: array<int>,
                tmp0: array<int>, tmp1: array<int>, e: seq<Byte>, ghost u: int) returns (swap: int)
    requires Apart(x1, x2, z2, x3, z3, tmp0, tmp1) && |e| == 32 && BytesValue(e) < Pow2(255)
    requires Small(x1[..], u) && Deferred(x2[..], z2[..], x3[..], z3[..], 0, (Ratio(1, 0), Ratio(u, 1)))
    modifies x2, z2, x3, z3, tmp0, tmp1
    ensures 0 <= swap <= 1 && Deferred(x2[..], z2[..], x3[..], z3[..], swap, Rung(u, BytesValue(e), 255))
  {
    hide Apart, Small, Pow2, BytesValue, High, Bit, Climb, Rung, Deferred;
    ghost var v := BytesValue(e);
    TopDone(v);
    NoBits(u, High(v, 255));
    FrameX1(x1, x2, z2, x3, z3, tmp0, tmp1);
    swap := 0;
    var pos := 254;
    while pos >= 0
      invariant -1 <= pos <= 254 && 0 <= swap <= 1 && Small(x1[..], u)
      invariant Deferred(x2[..], z2[..], x3[..], z3[..], swap, Rung(u, High(v, pos + 1), 254 - pos))
    {
      var b := Bit(e, pos);
      BitOf(e, pos);
      RungStep(u, v, pos);
      Turn(x1, x2, z2, x3, z3, tmp0, tmp1, swap, b, u, Rung(u, High(v, pos + 1), 254 - pos));
      swap := b;
      pos := pos - 1;
    }
    AllBits(v);
  }

  /** ed25519_key_exchange: the ladder with deferred swaps, on limbs, computes the secret's coordinate. */
  method KeyExchange(publicKey: seq<Byte>, privateKey: seq<Byte>) returns (sharedSecret: seq<Byte>)
    requires |publicKey| == 32 && |privateKey| >= 32
    ensures |sharedSecret| == 32
    ensures BytesValue(sharedSecret) == Secret(FromKey(publicKey), Scalar(Clamp(privateKey)))
  {
    hide Small, Pow2, BytesValue, Clamp, Rung, FromKey, Affine;
    ClampedScalar(privateKey);
    var e := Clamp(privateKey)[..32];
    ghost var u := FromKey(publicKey);
    var x1, x2, z2, x3, z3 := new int[10], new int[10], new int[10], new int[10], new int[10];
    var tmp0, tmp1 := new int[10], new int[10];
    Unpack(x1, tmp0, tmp1, publicKey);
    FeConstant(x2, 1);
    FeConstant(z2, 0);
    Store(x3, x1[..]);
    FeConstant(z3, 1);
    var swap := Ascend(x1, x2, z2, x3, z3, tmp0, tmp1, e, u);
    sharedSecret := Quotient(x2, z2, x3, z3, swap, Rung(u, BytesValue(e), 255));
  }

  lemma NoBits(u: int, v: nat)
    ensures Rung(u, v, 0) == (Ratio(1, 0), Ratio(u, 1))
  {
  }

  lemma AllBits(v: nat)
    ensures High(v, 0) == v
  {
  }

  /** The first coordinate of the public key, in x1. */
  method Unpack(x1: array<int>, tmp0: array<int>, tmp1: array<int>, publicKey: seq<Byte>)
    requires x1.Length == tmp0.Length == tmp1.Length == 10 && x1 != tmp0 && x1 != tmp1 && tmp0 != tmp1
    requires |publicKey| == 32
    modifies x1, tmp0, tmp1
    ensures Small(x1[..], FromKey(publicKey))
  {
    ghost var y := BytesValue(publicKey) % (P + 19) % P;
    Load(x1, publicKey);
    hide Small, Large, BytesValue, Plus, Minus, Times', Inverse;
    FeConstant(tmp1, 1);
    FeAdd(tmp0, x1, tmp1, y, 1);
    FeSub(tmp1, tmp1, x1, 1, y);
    Invert(tmp1, tmp1, Minus(1, y));
    SmallIsLarge(tmp1[..], Inverse(Minus(1, y)));
    Multiply(x1, tmp0, tmp1, Plus(y, 1), Inverse(Minus(1, y)));
  }

  method Load(h: array<int>, s: seq<Byte>)
    requires h.Length == 10 && |s| == 32
    modifies h
    ensures Small(h[..], BytesValue(s) % (P + 19) % P)
  {
    hide Value, BytesValue, Congruent, Reduced;
    FeFromBytes(h, s);
    SameRemainder(Value(h[..]), BytesValue(s) % (P + 19));
  }

  method Pack(h: seq<int>, ghost v: int) returns (s: seq<Byte>)
    requires Small(h, v)
    ensures |s| == 32 && BytesValue(s) == v
  {
    SmallIsLarge(h, v);
    hide Value, BytesValue;
    s := FeToBytes(h);
  }
}
