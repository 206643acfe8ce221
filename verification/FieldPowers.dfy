/** Externals/ed25519/fe.c: the addition chains fe_invert and fe_pow22523. */
module FieldPowers {
  import opened Radix
  import opened FieldElement
  import opened FieldBytes

  /** x^n. */
  function Exp(x: int, n: nat): int {
    if n == 0 then 1 else x * Exp(x, n - 1)
  }

  lemma {:induction false} ExpAdd(x: int, a: nat, b: nat)
    ensures Exp(x, a + b) == Exp(x, a) * Exp(x, b)
  {
    if a > 0 {
      ExpAdd(x, a - 1, b);
      var u, v := Exp(x, a - 1), Exp(x, b);
      assert x * (u * v) == (x * u) * v;
    }
  }

  /** h stands for x^e. */
  ghost predicate Is(h: seq<int>, x: int, e: nat) {
    Wide(h) && Congruent(Value(h), Exp(x, e))
  }

  lemma CongruentMul(a: int, b: int, c: int, d: int)
    requires Congruent(a, b) && Congruent(c, d)
    ensures Congruent(a * c, b * d)
  {
    var q, r :| a == b + q * P && c == d + r * P;
    Expand(b, d, q, r);
  }

  lemma Expand(b: int, d: int, q: int, r: int)
    ensures (b + q * P) * (d + r * P) == b * d + (q * d + b * r + q * r * P) * P
  {
    assert (b + q * P) * (d + r * P) == b * d + b * (r * P) + q * P * d + q * P * (r * P);
    assert b * (r * P) == b * r * P && q * P * d == q * d * P && q * P * (r * P) == q * r * P * P;
  }

  lemma CongruentTrans(a: int, b: int, c: int)
    requires Congruent(a, b) && Congruent(b, c)
    ensures Congruent(a, c)
  {
    var q, r :| a == b + q * P && b == c + r * P;
    assert a == c + (q + r) * P;
  }

  /** A product of powers. */
  lemma IsProduct(h: seq<int>, f: seq<int>, g: seq<int>, x: int, a: nat, b: nat)
    requires Is(f, x, a) && Is(g, x, b) && Tight(h) && Congruent(Value(h), Value(f) * Value(g))
    ensures Is(h, x, a + b)
  {
    TightIsWide(h);
    CongruentMul(Value(f), Exp(x, a), Value(g), Exp(x, b));
    CongruentTrans(Value(h), Value(f) * Value(g), Exp(x, a) * Exp(x, b));
    ExpAdd(x, a, b);
  }

  method Times(h: array<int>, f: array<int>, g: array<int>, ghost x: int, ghost a: nat, ghost b: nat)
    requires h.Length == 10 && Is(f[..], x, a) && Is(g[..], x, b)
    modifies h
    ensures Is(h[..], x, a + b) && Tight(h[..])
  {
    hide Value, Exp, Wide, Tight, Congruent;
    ghost var u, v := f[..], g[..];
    FeMul(h, f, g);
    IsProduct(h[..], u, v, x, a, b);
  }

  /** fe_sq(h, f), then h squared in place until n squarings are made. */
  method SquareTimes(h: array<int>, f: array<int>, n: nat, ghost x: int, ghost e: nat)
    requires h.Length == 10 && Is(f[..], x, e) && n > 0
    modifies h
    ensures Is(h[..], x, e * Pow2(n))
  {
    hide Is, Value, Wide, Tight, Congruent;
    FeSquare(h, f, x, e);
    TwoTimes(e, 0);
    assert Pow2(0) == 1;
    for i := 1 to n
      invariant Is(h[..], x, e * Pow2(i))
    {
      TwoTimes(e, i);
      FeSquare(h, h, x, e * Pow2(i));
    }
  }

  lemma TwoTimes(e: nat, i: nat)
    ensures e * Pow2(i) + e * Pow2(i) == e * Pow2(i + 1)
  {
    Pow2Double(i);
  }

  method FeSquare(h: array<int>, f: array<int>, ghost x: int, ghost e: nat)
    requires h.Length == 10 && Is(f[..], x, e)
    modifies h
    ensures Is(h[..], x, e + e)
  {
    hide Value, Exp, Wide, Tight, Congruent;
    ghost var u := f[..];
    FeSq(h, f);
    IsProduct(h[..], u, u, x, e, e);
  }

  /** a ones shifted left by b and b ones below them are a + b ones. */
  lemma Ones(a: nat, b: nat)
    ensures (Pow2(a) - 1) * Pow2(b) + (Pow2(b) - 1) == Pow2(a + b) - 1
  {
    Pow2Add(a, b);
  }

  lemma FirstPower(z: seq<int>)
    requires Wide(z)
    ensures Is(z, Value(z), 1)
  {
    assert Exp(Value(z), 1) == Value(z) * Exp(Value(z), 0);
    assert Value(z) == Exp(Value(z), 1) + 0 * P;
  }

  lemma SmallOnes()
    ensures Pow2(1) == 2 && Pow2(2) == 4 && Pow2(5) == 32 && Pow2(5) - 1 == 31
  {
  }

  /** a stands for 2^5 - 1 ones; after it for 2^50 - 1. The registers of both functions, renamed. */
  method ChainTo50(a: array<int>, b: array<int>, c: array<int>, ghost x: int)
    requires a.Length == b.Length == c.Length == 10 && a != b && a != c && b != c
    requires Is(a[..], x, Pow2(5) - 1)
    modifies a, b, c
    ensures Is(a[..], x, Pow2(50) - 1)
  {
    hide Is, Pow2;
    Ones(5, 5);
    Ones(10, 10);
    Ones(20, 20);
    Ones(40, 10);
    SquareTimes(b, a, 5, x, Pow2(5) - 1);
    Times(a, b, a, x, (Pow2(5) - 1) * Pow2(5), Pow2(5) - 1);
    SquareTimes(b, a, 10, x, Pow2(10) - 1);
    Times(b, b, a, x, (Pow2(10) - 1) * Pow2(10), Pow2(10) - 1);
    SquareTimes(c, b, 20, x, Pow2(20) - 1);
    Times(b, c, b, x, (Pow2(20) - 1) * Pow2(20), Pow2(20) - 1);
    SquareTimes(b, b, 10, x, Pow2(40) - 1);
    Times(a, b, a, x, (Pow2(40) - 1) * Pow2(10), Pow2(10) - 1);
  }

  /** On to 2^250 - 1. */
  method ChainTo250(a: array<int>, b: array<int>, c: array<int>, ghost x: int)
    requires a.Length == b.Length == c.Length == 10 && a != b && a != c && b != c
    requires Is(a[..], x, Pow2(50) - 1)
    modifies a, b, c
    ensures Is(a[..], x, Pow2(250) - 1)
  {
    hide Is, Pow2;
    Ones(50, 50);
    Ones(100, 100);
    Ones(200, 50);
    SquareTimes(b, a, 50, x, Pow2(50) - 1);
    Times(b, b, a, x, (Pow2(50) - 1) * Pow2(50), Pow2(50) - 1);
    SquareTimes(c, b, 100, x, Pow2(100) - 1);
    Times(b, c, b, x, (Pow2(100) - 1) * Pow2(100), Pow2(100) - 1);
    SquareTimes(b, b, 50, x, Pow2(200) - 1);
    Times(a, b, a, x, (Pow2(200) - 1) * Pow2(50), Pow2(50) - 1);
  }

  /** z^9 and z^11. */
  method Start(t0: array<int>, t1: array<int>, z: array<int>, ghost x: int)
    requires t0.Length == t1.Length == z.Length == 10 && t0 != t1 && t0 != z && t1 != z
    requires Is(z[..], x, 1)
    modifies t0, t1
    ensures Is(t1[..], x, 9) && Is(t0[..], x, 11)
  {
    SmallOnes();
    hide Is, Pow2;
    SquareTimes(t0, z, 1, x, 1);
    SquareTimes(t1, t0, 2, x, 2);
    Times(t1, z, t1, x, 1, 8);
    Times(t0, t0, t1, x, 2, 9);
  }

  lemma LastExponents()
    ensures (Pow2(250) - 1) * 32 + 11 == P - 2 && (Pow2(250) - 1) * 4 + 1 == Pow2(252) - 3
    ensures 8 * ((Pow2(250) - 1) * 4 + 1) == P - 5
  {
    Weights();
    WeightIsPower(10);
    assert Position(10) == 255;
    SmallOnes();
    hide Pow2, V;
    Pow2Add(250, 5);
    Pow2Add(250, 2);
  }

  /** fe_invert: z^(P-2), the inverse by Fermat's little theorem. */
  method FeInvert(out: array<int>, z: array<int>)
    requires out.Length == z.Length == 10 && Wide(z[..])
    modifies out
    ensures Tight(out[..]) && Congruent(Value(out[..]), Exp(Value(old(z[..])), P - 2))
  {
    hide Is, Pow2, Value, Tight, Congruent, Exp, Wide;
    ghost var x := Value(z[..]);
    FirstPower(z[..]);
    SmallOnes();
    LastExponents();
    var t0, t1, t2, t3 := new int[10], new int[10], new int[10], new int[10];
    Start(t0, t1, z, x);
    SquareTimes(t2, t0, 1, x, 11);
    Times(t1, t1, t2, x, 9, 22);
    ChainTo50(t1, t2, t3, x);
    ChainTo250(t1, t2, t3, x);
    SquareTimes(t1, t1, 5, x, Pow2(250) - 1);
    Times(out, t1, t0, x, (Pow2(250) - 1) * Pow2(5), 11);
    IsMeans(out[..], x, P - 2);
  }

  lemma IsMeans(h: seq<int>, x: int, e: nat)
    requires Is(h, x, e)
    ensures Congruent(Value(h), Exp(x, e))
  {
  }

  /** fe_pow22523: z^(2^252 - 3), which is z^((P-5)/8). */
  method FePow22523(out: array<int>, z: array<int>)
    requires out.Length == z.Length == 10 && Wide(z[..])
    modifies out
    ensures Tight(out[..]) && Congruent(Value(out[..]), Exp(Value(old(z[..])), (P - 5) / 8))
  {
    hide Is, Pow2, Value, Tight, Congruent, Exp, Wide;
    ghost var x := Value(z[..]);
    FirstPower(z[..]);
    SmallOnes();
    LastExponents();
    var t0, t1, t2 := new int[10], new int[10], new int[10];
    Start(t0, t1, z, x);
    SquareTimes(t0, t0, 1, x, 11);
    Times(t0, t1, t0, x, 9, 22);
    ChainTo50(t0, t1, t2, x);
    ChainTo250(t0, t1, t2, x);
    SquareTimes(t0, t0, 2, x, Pow2(250) - 1);
    Times(out, t0, z, x, (Pow2(250) - 1) * Pow2(2), 1);
    IsMeans(out[..], x, (P - 5) / 8);
  }
}
