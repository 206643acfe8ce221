/** Externals/ed25519/fe.c: arithmetic modulo P = 2^255 - 19 on ten signed limbs of alternately 26 and
    25 bits. The C code names the limbs h0..h9; here they are h[0]..h[9]. */
module FieldElement {
  import opened Radix

  const P: int := 0x8000_0000_0000_0000_0000_0000_0000_0000_0000_0000_0000_0000_0000_0000_0000_0000 - 19

  /** Radix between limb n and the next. */
  function Width(n: int): (w: int)
    ensures w > 0
  {
    if n % 2 == 0 then 0x400_0000 else 0x200_0000
  }

  /** Weight of limb n. */
  function V(n: nat): (w: int)
    ensures w > 0
  {
    if n == 0 then 1 else Width(n - 1) * V(n - 1)
  }

  /** h[0] + 2^26 h[1] + 2^51 h[2] + ... */
  function Value(h: seq<int>): int {
    if |h| == 0 then 0 else Value(h[..|h| - 1]) + h[|h| - 1] * V(|h| - 1)
  }

  lemma {:induction false} ValueUpdate(h: seq<int>, i: nat, v: int)
    requires i < |h|
    ensures Value(h[i := v]) == Value(h) + (v - h[i]) * V(i)
  {
    hide V;
    var n := |h| - 1;
    if i == n {
      assert h[i := v][..n] == h[..n];
      Distribute(h[i], v - h[i], V(i));
    } else {
      ValueUpdate(h[..n], i, v);
      assert h[i := v][..n] == h[..n][i := v];
    }
  }

  lemma Distribute(a: int, b: int, c: int)
    ensures (a + b) * c == a * c + b * c
  {
  }

  /** h[i] += d. */
  function AddTo(h: seq<int>, i: nat, d: int): (r: seq<int>)
    requires i < |h|
    ensures |r| == |h| && r[i] == h[i] + d && forall j :: 0 <= j < |h| && j != i ==> r[j] == h[j]
    ensures Value(r) == Value(h) + d * V(i)
  {
    ValueUpdate(h, i, h[i] + d);
    h[i := h[i] + d]
  }

  lemma VStep(n: nat, w: int)
    requires V(n) == w
    ensures V(n + 1) == Width(n) * w
  {
  }

  /** The weights of fe.c, and 2^255 above them. */
  lemma Weights()
    ensures V(0) == 0x1
    ensures V(1) == 0x400_0000
    ensures V(2) == 0x8_0000_0000_0000
    ensures V(3) == 0x2000_0000_0000_0000_0000
    ensures V(4) == 0x40_0000_0000_0000_0000_0000_0000
    ensures V(5) == 0x1_0000_0000_0000_0000_0000_0000_0000_0000
    ensures V(6) == 0x200_0000_0000_0000_0000_0000_0000_0000_0000_0000
    ensures V(7) == 0x8_0000_0000_0000_0000_0000_0000_0000_0000_0000_0000_0000
    ensures V(8) == 0x1000_0000_0000_0000_0000_0000_0000_0000_0000_0000_0000_0000_0000
    ensures V(9) == 0x40_0000_0000_0000_0000_0000_0000_0000_0000_0000_0000_0000_0000_0000_0000
    ensures V(10) == P + 19
  {
    assert V(0) == 1;
    hide V;
    VStep(0, 0x1);
    VStep(1, 0x400_0000);
    VStep(2, 0x8_0000_0000_0000);
    VStep(3, 0x2000_0000_0000_0000_0000);
    VStep(4, 0x40_0000_0000_0000_0000_0000_0000);
    VStep(5, 0x1_0000_0000_0000_0000_0000_0000_0000_0000);
    VStep(6, 0x200_0000_0000_0000_0000_0000_0000_0000_0000_0000);
    VStep(7, 0x8_0000_0000_0000_0000_0000_0000_0000_0000_0000_0000_0000);
    VStep(8, 0x1000_0000_0000_0000_0000_0000_0000_0000_0000_0000_0000_0000_0000);
    VStep(9, 0x40_0000_0000_0000_0000_0000_0000_0000_0000_0000_0000_0000_0000_0000_0000);
  }

  // --------------------------------------------------------------- products

  /** What the product of limbs i and j counts for: weights of odd limbs are half a bit short, and 2^255
      counts as 19. */
  function Factor(i: int, j: int): int {
    Doubled(i, j) * (if i + j >= 10 then 19 else 1)
  }

  function Doubled(i: int, j: int): int {
    if i % 2 == 1 && j % 2 == 1 then 2 else 1
  }

  lemma WidthStep(i: nat, j: nat)
    requires j > 0
    ensures Width(j - 1) * Doubled(i, j - 1) == Doubled(i, j) * Width(i + j - 1)
  {
  }

  lemma Regroup(a: int, b: int, w: int, c: int, u: int, d: int, x: int)
    requires a * b == c * u && w * c == d * x
    ensures a * (w * b) == d * (x * u)
  {
    assert a * (w * b) == w * (a * b);
    assert w * (c * u) == (w * c) * u;
    assert (d * x) * u == d * (x * u);
  }

  lemma {:induction false} VAdd(i: nat, j: nat)
    ensures V(i) * V(j) == Doubled(i, j) * V(i + j)
    decreases j
  {
    if j > 0 {
      VStep(j - 1, V(j - 1));
      VStep(i + j - 1, V(i + j - 1));
      hide V, Width, Doubled;
      VAdd(i, j - 1);
      WidthStep(i, j);
      Regroup(V(i), V(j - 1), Width(j - 1), Doubled(i, j - 1), V(i + j - 1), Doubled(i, j), Width(i + j - 1));
    }
  }

  /** Limbs i and j multiplied, taken modulo P. */
  lemma VTimes(i: nat, j: nat) returns (q: int)
    requires i < 10 && j < 10
    ensures V(i) * V(j) == Factor(i, j) * V((i + j) % 10) + q * P
  {
    Weights();
    hide V, Doubled;
    VAdd(i, j);
    if i + j >= 10 {
      var k := i + j - 10;
      VAdd(10, k);
      TenEven(k);
      q := Doubled(i, j) * V(k);
      Wrapped(Doubled(i, j), V(k));
    } else {
      q := 0;
    }
  }

  lemma TenEven(k: nat)
    ensures Doubled(10, k) == 1
  {
  }

  lemma Wrapped(c: int, v: int)
    ensures c * ((P + 19) * v) == c * 19 * v + c * v * P
  {
  }

  /** A product of two 32-bit numbers in 64 bits. */
  function Mul(x: int, y: int): int {
    x * y
  }

  /** The schoolbook product as fe_mul writes it, limb by limb. */
  function Product(f: seq<int>, g: seq<int>): (h: seq<int>)
    requires |f| == |g| == 10
    ensures |h| == 10
  {
    [Mul(f[0], g[0]) + Mul(2 * f[1], 19 * g[9]) + Mul(f[2], 19 * g[8]) + Mul(2 * f[3], 19 * g[7]) + Mul(f[4], 19 * g[6])
       + Mul(2 * f[5], 19 * g[5]) + Mul(f[6], 19 * g[4]) + Mul(2 * f[7], 19 * g[3]) + Mul(f[8], 19 * g[2])
           + Mul(2 * f[9], 19 * g[1]),
     Mul(f[0], g[1]) + Mul(f[1], g[0]) + Mul(f[2], 19 * g[9]) + Mul(f[3], 19 * g[8]) + Mul(f[4], 19 * g[7])
       + Mul(f[5], 19 * g[6]) + Mul(f[6], 19 * g[5]) + Mul(f[7], 19 * g[4]) + Mul(f[8], 19 * g[3])
           + Mul(f[9], 19 * g[2]),
     Mul(f[0], g[2]) + Mul(2 * f[1], g[1]) + Mul(f[2], g[0]) + Mul(2 * f[3], 19 * g[9]) + Mul(f[4], 19 * g[8])
       + Mul(2 * f[5], 19 * g[7]) + Mul(f[6], 19 * g[6]) + Mul(2 * f[7], 19 * g[5]) + Mul(f[8], 19 * g[4])
           + Mul(2 * f[9], 19 * g[3]),
     Mul(f[0], g[3]) + Mul(f[1], g[2]) + Mul(f[2], g[1]) + Mul(f[3], g[0]) + Mul(f[4], 19 * g[9])
       + Mul(f[5], 19 * g[8]) + Mul(f[6], 19 * g[7]) + Mul(f[7], 19 * g[6]) + Mul(f[8], 19 * g[5])
           + Mul(f[9], 19 * g[4]),
     Mul(f[0], g[4]) + Mul(2 * f[1], g[3]) + Mul(f[2], g[2]) + Mul(2 * f[3], g[1]) + Mul(f[4], g[0])
       + Mul(2 * f[5], 19 * g[9]) + Mul(f[6], 19 * g[8]) + Mul(2 * f[7], 19 * g[7]) + Mul(f[8], 19 * g[6])
           + Mul(2 * f[9], 19 * g[5]),
     Mul(f[0], g[5]) + Mul(f[1], g[4]) + Mul(f[2], g[3]) + Mul(f[3], g[2]) + Mul(f[4], g[1])
       + Mul(f[5], g[0]) + Mul(f[6], 19 * g[9]) + Mul(f[7], 19 * g[8]) + Mul(f[8], 19 * g[7]) + Mul(f[9], 19 * g[6]),
     Mul(f[0], g[6]) + Mul(2 * f[1], g[5]) + Mul(f[2], g[4]) + Mul(2 * f[3], g[3]) + Mul(f[4], g[2])
       + Mul(2 * f[5], g[1]) + Mul(f[6], g[0]) + Mul(2 * f[7], 19 * g[9]) + Mul(f[8], 19 * g[8])
           + Mul(2 * f[9], 19 * g[7]),
     Mul(f[0], g[7]) + Mul(f[1], g[6]) + Mul(f[2], g[5]) + Mul(f[3], g[4]) + Mul(f[4], g[3])
       + Mul(f[5], g[2]) + Mul(f[6], g[1]) + Mul(f[7], g[0]) + Mul(f[8], 19 * g[9]) + Mul(f[9], 19 * g[8]),
     Mul(f[0], g[8]) + Mul(2 * f[1], g[7]) + Mul(f[2], g[6]) + Mul(2 * f[3], g[5]) + Mul(f[4], g[4])
       + Mul(2 * f[5], g[3]) + Mul(f[6], g[2]) + Mul(2 * f[7], g[1]) + Mul(f[8], g[0]) + Mul(2 * f[9], 19 * g[9]),
     Mul(f[0], g[9]) + Mul(f[1], g[8]) + Mul(f[2], g[7]) + Mul(f[3], g[6]) + Mul(f[4], g[5])
       + Mul(f[5], g[4]) + Mul(f[6], g[3]) + Mul(f[7], g[2]) + Mul(f[8], g[1]) + Mul(f[9], g[0])]
  }

  /** Limb i of f, doubled in advance when both limbs are odd. */
  function Left(f: seq<int>, i: nat, j: nat): int
    requires |f| == 10 && i < 10
  {
    if i % 2 == 1 && j % 2 == 1 then 2 * f[i] else f[i]
  }

  /** Limb j of g, times 19 in advance when the weights pass 2^255. */
  function Right(g: seq<int>, i: nat, j: nat): int
    requires |g| == 10 && j < 10
  {
    if i + j >= 10 then 19 * g[j] else g[j]
  }

  /** The term of limb i of f in limb k of the product. */
  function Term(f: seq<int>, g: seq<int>, i: nat, k: int): int
    requires |f| == |g| == 10 && i < 10 && 0 <= k < 10
  {
    Mul(Left(f, i, (k - i) % 10), Right(g, i, (k - i) % 10))
  }

  lemma TermFactor(f: seq<int>, g: seq<int>, i: nat, j: nat)
    requires |f| == |g| == 10 && i < 10 && j < 10
    ensures Term(f, g, i, (i + j) % 10) == f[i] * g[j] * Factor(i, j)
  {
    assert ((i + j) % 10 - i) % 10 == j;
    Scales(f[i], g[j]);
  }

  lemma Scales(x: int, y: int)
    ensures 2 * x * (19 * y) == x * y * 38 && x * (19 * y) == x * y * 19 && 2 * x * y == x * y * 2
  {
  }

  /** The first n terms of limb k, summed from the left. */
  function Dot(f: seq<int>, g: seq<int>, k: int, n: nat): int
    requires |f| == |g| == 10 && 0 <= k < 10 && n <= 10
    decreases n
  {
    if n == 0 then 0 else Dot(f, g, k, n - 1) + Term(f, g, n - 1, k)
  }

  lemma ProductAt0(f: seq<int>, g: seq<int>, k: int)
    requires |f| == |g| == 10 && 0 <= k < 2
    ensures Product(f, g)[k] == Dot(f, g, k, 10)
  {
    hide Mul;
    if k == 0 {} else if k == 1 {}
  }

  lemma ProductAt2(f: seq<int>, g: seq<int>, k: int)
    requires |f| == |g| == 10 && 2 <= k < 4
    ensures Product(f, g)[k] == Dot(f, g, k, 10)
  {
    hide Mul;
    if k == 2 {} else if k == 3 {}
  }

  lemma ProductAt4(f: seq<int>, g: seq<int>, k: int)
    requires |f| == |g| == 10 && 4 <= k < 6
    ensures Product(f, g)[k] == Dot(f, g, k, 10)
  {
    hide Mul;
    if k == 4 {} else if k == 5 {}
  }

  lemma ProductAt6(f: seq<int>, g: seq<int>, k: int)
    requires |f| == |g| == 10 && 6 <= k < 8
    ensures Product(f, g)[k] == Dot(f, g, k, 10)
  {
    hide Mul;
    if k == 6 {} else if k == 7 {}
  }

  lemma ProductAt8(f: seq<int>, g: seq<int>, k: int)
    requires |f| == |g| == 10 && 8 <= k < 10
    ensures Product(f, g)[k] == Dot(f, g, k, 10)
  {
    hide Mul;
    if k == 8 {} else if k == 9 {}
  }

  lemma ProductAt(f: seq<int>, g: seq<int>, k: int)
    requires |f| == |g| == 10 && 0 <= k < 10
    ensures Product(f, g)[k] == Dot(f, g, k, 10)
  {
    hide Product, Dot;
    if k < 2 {
      ProductAt0(f, g, k);
    } else if k < 4 {
      ProductAt2(f, g, k);
    } else if k < 6 {
      ProductAt4(f, g, k);
    } else if k < 8 {
      ProductAt6(f, g, k);
    } else {
      ProductAt8(f, g, k);
    }
  }

  /** What limb i of f contributes with the first n limbs of g. */
  ghost function Part(f: seq<int>, g: seq<int>, i: nat, n: nat): (h: seq<int>)
    requires |f| == |g| == 10 && i < 10 && n <= 10
    ensures |h| == 10
  {
    seq(10, k requires 0 <= k < 10 => if (k - i) % 10 < n then Term(f, g, i, k) else 0)
  }

  lemma {:induction false} ZeroValue(h: seq<int>)
    requires forall k :: 0 <= k < |h| ==> h[k] == 0
    ensures Value(h) == 0
  {
    if |h| > 0 {
      ZeroValue(h[..|h| - 1]);
    }
  }

  lemma PartStep(f: seq<int>, g: seq<int>, i: nat, n: nat)
    requires |f| == |g| == 10 && i < 10 && 0 < n <= 10
    ensures Part(f, g, i, n) == AddTo(Part(f, g, i, n - 1), (i + n - 1) % 10, f[i] * g[n - 1] * Factor(i, n - 1))
  {
    hide Term, Factor, V, Value;
    var k0 := (i + n - 1) % 10;
    TermFactor(f, g, i, n - 1);
    var a, b := Part(f, g, i, n), AddTo(Part(f, g, i, n - 1), k0, f[i] * g[n - 1] * Factor(i, n - 1));
    hide AddTo;
    forall k | 0 <= k < 10
      ensures a[k] == b[k]
    {
      SameLimb(k, i, n - 1);
    }
  }

  lemma SameLimb(k: int, i: nat, j: nat)
    requires 0 <= k < 10 && i < 10 && j < 10
    ensures (k - i) % 10 == j <==> k == (i + j) % 10
  {
  }

  lemma {:induction false} PartValue(f: seq<int>, g: seq<int>, i: nat, n: nat) returns (q: int)
    requires |f| == |g| == 10 && i < 10 && n <= 10
    ensures Value(Part(f, g, i, n)) + q * P == f[i] * V(i) * Value(g[..n])
    decreases n
  {
    if n == 0 {
      ZeroValue(Part(f, g, i, 0));
      q := 0;
    } else {
      var q0 := PartValue(f, g, i, n - 1);
      var q1 := VTimes(i, n - 1);
      PartStep(f, g, i, n);
      TakeLimb(g, n);
      hide V, Part, Factor, Value;
      q := q0 + f[i] * g[n - 1] * q1;
      Spread(f[i], V(i), Value(g[..n - 1]), g[n - 1], V(n - 1), Factor(i, n - 1), V((i + n - 1) % 10), q1, q0,
             Value(Part(f, g, i, n - 1)));
    }
  }

  lemma TakeLimb(g: seq<int>, n: nat)
    requires 0 < n <= |g|
    ensures Value(g[..n]) == Value(g[..n - 1]) + g[n - 1] * V(n - 1)
  {
    assert g[..n][..n - 1] == g[..n - 1];
  }

  /** One more limb of g: what was worth a, modulo P, is then worth a + x y c z. */
  lemma Spread(x: int, v: int, u: int, y: int, w: int, c: int, z: int, q1: int, q0: int, a: int)
    requires v * w == c * z + q1 * P && a + q0 * P == x * v * u
    ensures a + x * y * c * z + (q0 + x * y * q1) * P == x * v * (u + y * w)
  {
    assert x * v * (y * w) == x * y * (v * w);
    assert x * y * (c * z + q1 * P) == x * y * c * z + x * y * q1 * P;
  }

  ghost function Rows(f: seq<int>, g: seq<int>, n: nat): (h: seq<int>)
    requires |f| == |g| == 10 && n <= 10
    ensures |h| == 10
  {
    seq(10, k requires 0 <= k < 10 => Dot(f, g, k, n))
  }

  lemma {:induction false} ValueSum(s: seq<int>, t: seq<int>, u: seq<int>)
    requires |s| == |t| == |u| && forall k :: 0 <= k < |s| ==> u[k] == s[k] + t[k]
    ensures Value(u) == Value(s) + Value(t)
  {
    hide V;
    if |s| > 0 {
      var n := |s| - 1;
      ValueSum(s[..n], t[..n], u[..n]);
      Distribute(s[n], t[n], V(n));
    }
  }

  lemma RowsStep(f: seq<int>, g: seq<int>, n: nat)
    requires |f| == |g| == 10 && 0 < n <= 10
    ensures forall k :: 0 <= k < 10 ==> Rows(f, g, n)[k] == Rows(f, g, n - 1)[k] + Part(f, g, n - 1, 10)[k]
  {
    hide Term;
  }

  lemma {:induction false} RowsValue(f: seq<int>, g: seq<int>, n: nat) returns (q: int)
    requires |f| == |g| == 10 && n <= 10
    ensures Value(Rows(f, g, n)) + q * P == Value(f[..n]) * Value(g)
  {
    if n == 0 {
      ZeroValue(Rows(f, g, 0));
      q := 0;
    } else {
      var a, b := f[n - 1], V(n - 1);
      assert f[..n][..n - 1] == f[..n - 1];
      assert Value(f[..n]) == Value(f[..n - 1]) + a * b;
      hide Rows, Part, V, Value;
      var q0 := RowsValue(f, g, n - 1);
      var q1 := PartValue(f, g, n - 1, 10);
      assert g[..10] == g;
      RowsStep(f, g, n);
      ValueSum(Rows(f, g, n - 1), Part(f, g, n - 1, 10), Rows(f, g, n));
      q := q0 + q1;
      Distribute(Value(f[..n - 1]), a * b, Value(g));
      Distribute(q0, q1, P);
    }
  }

  /** Limb k of h collects every product of limbs whose weight falls on it. */
  ghost predicate Collects(h: seq<int>, f: seq<int>, g: seq<int>)
    requires |f| == |g| == 10
  {
    |h| == 10 && forall k :: 0 <= k < 10 ==> h[k] == Dot(f, g, k, |f|)
  }

  lemma ProductCollects(f: seq<int>, g: seq<int>)
    requires |f| == |g| == 10
    ensures Collects(Product(f, g), f, g)
  {
    hide Product, Dot;
    forall k | 0 <= k < 10
      ensures Product(f, g)[k] == Dot(f, g, k, |f|)
    {
      ProductAt(f, g, k);
    }
  }

  /** The collected limbs are worth the product of the values, modulo P. */
  lemma ProductValue(h: seq<int>, f: seq<int>, g: seq<int>) returns (q: int)
    requires |f| == |g| == 10 && Collects(h, f, g)
    ensures Value(h) + q * P == Value(f) * Value(g)
  {
    hide Dot, Value;
    assert h == Rows(f, g, 10);
    assert f[..10] == f;
    q := RowsValue(f, g, 10);
  }

  // ---------------------------------------------------------------- squares

  /** The terms fe_sq and fe_sq2 add up for each limb: products that occur twice are formed once. */
  function SquareTerms(f: seq<int>): (t: seq<seq<int>>)
    requires |f| == 10
    ensures |t| == 10
  {
    [[Mul(f[0], f[0]), Mul(2 * f[1], 38 * f[9]), Mul(2 * f[2], 19 * f[8]), Mul(2 * f[3], 38 * f[7]),
        Mul(2 * f[4], 19 * f[6]), Mul(f[5], 38 * f[5])],
     [Mul(2 * f[0], f[1]), Mul(f[2], 38 * f[9]), Mul(2 * f[3], 19 * f[8]), Mul(f[4], 38 * f[7]),
         Mul(2 * f[5], 19 * f[6])],
     [Mul(2 * f[0], f[2]), Mul(2 * f[1], f[1]), Mul(2 * f[3], 38 * f[9]), Mul(2 * f[4], 19 * f[8]),
         Mul(2 * f[5], 38 * f[7]), Mul(f[6], 19 * f[6])],
     [Mul(2 * f[0], f[3]), Mul(2 * f[1], f[2]), Mul(f[4], 38 * f[9]), Mul(2 * f[5], 19 * f[8]), Mul(f[6], 38 * f[7])],
     [Mul(2 * f[0], f[4]), Mul(2 * f[1], 2 * f[3]), Mul(f[2], f[2]), Mul(2 * f[5], 38 * f[9]),
         Mul(2 * f[6], 19 * f[8]), Mul(f[7], 38 * f[7])],
     [Mul(2 * f[0], f[5]), Mul(2 * f[1], f[4]), Mul(2 * f[2], f[3]), Mul(f[6], 38 * f[9]), Mul(2 * f[7], 19 * f[8])],
     [Mul(2 * f[0], f[6]), Mul(2 * f[1], 2 * f[5]), Mul(2 * f[2], f[4]), Mul(2 * f[3], f[3]),
         Mul(2 * f[7], 38 * f[9]), Mul(f[8], 19 * f[8])],
     [Mul(2 * f[0], f[7]), Mul(2 * f[1], f[6]), Mul(2 * f[2], f[5]), Mul(2 * f[3], f[4]), Mul(f[8], 38 * f[9])],
     [Mul(2 * f[0], f[8]), Mul(2 * f[1], 2 * f[7]), Mul(2 * f[2], f[6]), Mul(2 * f[3], 2 * f[5]), Mul(f[4], f[4]),
         Mul(f[9], 38 * f[9])],
     [Mul(2 * f[0], f[9]), Mul(2 * f[1], f[8]), Mul(2 * f[2], f[7]), Mul(2 * f[3], f[6]), Mul(2 * f[4], f[5])]]
  }

  /** The first n terms, summed from the left. */
  function Sum(t: seq<int>, n: nat): int
    requires n <= |t|
    decreases n
  {
    if n == 0 then 0 else Sum(t, n - 1) + t[n - 1]
  }

  function Square(f: seq<int>): (h: seq<int>)
    requires |f| == 10
    ensures |h| == 10
  {
    var t := SquareTerms(f);
    [Sum(t[0], 6), Sum(t[1], 5), Sum(t[2], 6), Sum(t[3], 5), Sum(t[4], 6), Sum(t[5], 5), Sum(t[6], 6), Sum(t[7], 5),
        Sum(t[8], 6), Sum(t[9], 5)]
  }

  /** Constants pass out of a product, and its factors commute. */
  lemma Scaled(x: int, y: int)
    ensures Mul(2 * x, y) == 2 * Mul(x, y) && Mul(x, 19 * y) == 19 * Mul(x, y) && Mul(2 * x, 19 * y) == 38 * Mul(x, y)
    ensures Mul(x, 38 * y) == 38 * Mul(x, y) && Mul(2 * x, 2 * y) == 4 * Mul(x, y)
        && Mul(2 * x, 38 * y) == 76 * Mul(x, y)
    ensures Mul(y, x) == Mul(x, y)
  {
    Scales(x, y);
    ScalesMore(x, y);
  }

  lemma ScalesMore(x: int, y: int)
    ensures x * (38 * y) == 38 * (x * y) && 2 * x * (2 * y) == 4 * (x * y) && 2 * x * (38 * y) == 76 * (x * y)
  {
  }

  lemma SquareAt0(f: seq<int>)
    requires |f| == 10
    ensures Square(f)[0] == Product(f, f)[0]
  {
    hide Mul;
    Scaled(f[0], f[0]);
    Scaled(f[1], f[9]);
    Scaled(f[9], f[1]);
    Scaled(f[2], f[8]);
    Scaled(f[8], f[2]);
    Scaled(f[3], f[7]);
    Scaled(f[7], f[3]);
    Scaled(f[4], f[6]);
    Scaled(f[6], f[4]);
    Scaled(f[5], f[5]);
  }

  lemma SquareAt1(f: seq<int>)
    requires |f| == 10
    ensures Square(f)[1] == Product(f, f)[1]
  {
    hide Mul;
    Scaled(f[0], f[1]);
    Scaled(f[1], f[0]);
    Scaled(f[2], f[9]);
    Scaled(f[9], f[2]);
    Scaled(f[3], f[8]);
    Scaled(f[8], f[3]);
    Scaled(f[4], f[7]);
    Scaled(f[7], f[4]);
    Scaled(f[5], f[6]);
    Scaled(f[6], f[5]);
  }

  lemma SquareAt2(f: seq<int>)
    requires |f| == 10
    ensures Square(f)[2] == Product(f, f)[2]
  {
    hide Mul;
    Scaled(f[0], f[2]);
    Scaled(f[2], f[0]);
    Scaled(f[1], f[1]);
    Scaled(f[3], f[9]);
    Scaled(f[9], f[3]);
    Scaled(f[4], f[8]);
    Scaled(f[8], f[4]);
    Scaled(f[5], f[7]);
    Scaled(f[7], f[5]);
    Scaled(f[6], f[6]);
  }

  lemma SquareAt3(f: seq<int>)
    requires |f| == 10
    ensures Square(f)[3] == Product(f, f)[3]
  {
    hide Mul;
    Scaled(f[0], f[3]);
    Scaled(f[3], f[0]);
    Scaled(f[1], f[2]);
    Scaled(f[2], f[1]);
    Scaled(f[4], f[9]);
    Scaled(f[9], f[4]);
    Scaled(f[5], f[8]);
    Scaled(f[8], f[5]);
    Scaled(f[6], f[7]);
    Scaled(f[7], f[6]);
  }

  lemma SquareAt4(f: seq<int>)
    requires |f| == 10
    ensures Square(f)[4] == Product(f, f)[4]
  {
    hide Mul;
    Scaled(f[0], f[4]);
    Scaled(f[4], f[0]);
    Scaled(f[1], f[3]);
    Scaled(f[3], f[1]);
    Scaled(f[2], f[2]);
    Scaled(f[5], f[9]);
    Scaled(f[9], f[5]);
    Scaled(f[6], f[8]);
    Scaled(f[8], f[6]);
    Scaled(f[7], f[7]);
  }

  lemma SquareAt5(f: seq<int>)
    requires |f| == 10
    ensures Square(f)[5] == Product(f, f)[5]
  {
    hide Mul;
    Scaled(f[0], f[5]);
    Scaled(f[5], f[0]);
    Scaled(f[1], f[4]);
    Scaled(f[4], f[1]);
    Scaled(f[2], f[3]);
    Scaled(f[3], f[2]);
    Scaled(f[6], f[9]);
    Scaled(f[9], f[6]);
    Scaled(f[7], f[8]);
    Scaled(f[8], f[7]);
  }

  lemma SquareAt6(f: seq<int>)
    requires |f| == 10
    ensures Square(f)[6] == Product(f, f)[6]
  {
    hide Mul;
    Scaled(f[0], f[6]);
    Scaled(f[6], f[0]);
    Scaled(f[1], f[5]);
    Scaled(f[5], f[1]);
    Scaled(f[2], f[4]);
    Scaled(f[4], f[2]);
    Scaled(f[3], f[3]);
    Scaled(f[7], f[9]);
    Scaled(f[9], f[7]);
    Scaled(f[8], f[8]);
  }

  lemma SquareAt7(f: seq<int>)
    requires |f| == 10
    ensures Square(f)[7] == Product(f, f)[7]
  {
    hide Mul;
    Scaled(f[0], f[7]);
    Scaled(f[7], f[0]);
    Scaled(f[1], f[6]);
    Scaled(f[6], f[1]);
    Scaled(f[2], f[5]);
    Scaled(f[5], f[2]);
    Scaled(f[3], f[4]);
    Scaled(f[4], f[3]);
    Scaled(f[8], f[9]);
    Scaled(f[9], f[8]);
  }

  lemma SquareAt8(f: seq<int>)
    requires |f| == 10
    ensures Square(f)[8] == Product(f, f)[8]
  {
    hide Mul;
    Scaled(f[0], f[8]);
    Scaled(f[8], f[0]);
    Scaled(f[1], f[7]);
    Scaled(f[7], f[1]);
    Scaled(f[2], f[6]);
    Scaled(f[6], f[2]);
    Scaled(f[3], f[5]);
    Scaled(f[5], f[3]);
    Scaled(f[4], f[4]);
    Scaled(f[9], f[9]);
  }

  lemma SquareAt9(f: seq<int>)
    requires |f| == 10
    ensures Square(f)[9] == Product(f, f)[9]
  {
    hide Mul;
    Scaled(f[0], f[9]);
    Scaled(f[9], f[0]);
    Scaled(f[1], f[8]);
    Scaled(f[8], f[1]);
    Scaled(f[2], f[7]);
    Scaled(f[7], f[2]);
    Scaled(f[3], f[6]);
    Scaled(f[6], f[3]);
    Scaled(f[4], f[5]);
    Scaled(f[5], f[4]);
  }

  /** Squaring saves multiplications and changes no limb. */
  lemma SquareIsProduct(f: seq<int>)
    requires |f| == 10
    ensures Square(f) == Product(f, f)
  {
    hide Square, Product;
    SquareAt0(f);
    SquareAt1(f);
    SquareAt2(f);
    SquareAt3(f);
    SquareAt4(f);
    SquareAt5(f);
    SquareAt6(f);
    SquareAt7(f);
    SquareAt8(f);
    SquareAt9(f);
  }

  // ----------------------------------------------------------- bounds and int64

  /** 1.65 * 2^26 and 1.65 * 2^25, what the products accept. */
  ghost predicate Wide(f: seq<int>) {
    |f| == 10 && forall i :: 0 <= i < 10 ==> -110729625 <= f[i] <= 110729625 && (i % 2 == 1 ==> -55364812 <= f[i] <= 55364812)
  }

  /** 1.01 * 2^25 and 1.01 * 2^24, what they return. */
  ghost predicate Tight(f: seq<int>) {
    |f| == 10 && forall i :: 0 <= i < 10 ==> -33889976 <= f[i] <= 33889976 && (i % 2 == 1 ==> -16944988 <= f[i] <= 16944988)
  }

  lemma MulBound(x: int, y: int, a: int, b: int)
    requires -a <= x <= a && -b <= y <= b
    ensures -(a * b) <= Mul(x, y) <= a * b
  {
    assert (a - x) * (b + y) >= 0 && (a + x) * (b - y) >= 0 && (a - x) * (b - y) >= 0 && (a + x) * (b + y) >= 0;
  }

  /** The factors of fe_mul fit int32, its products and all partial sums int64. */
  lemma {:induction false} DotBound(f: seq<int>, g: seq<int>, k: int, n: nat)
    requires Wide(f) && Wide(g) && 0 <= k < 10 && n <= 10
    ensures n > 0 ==> TermFits(f, g, n - 1, k)
    ensures -(n * 232959947200171875) <= Dot(f, g, k, n) <= n * 232959947200171875 && FitsInt64(Dot(f, g, k, n))
    decreases n
  {
    if n > 0 {
      var j := (k - (n - 1)) % 10;
      DotBound(f, g, k, n - 1);
      MulBound(Left(f, n - 1, j), Right(g, n - 1, j), 110729625, 2103862875);
      hide Mul;
    }
  }

  /** So no limb of a product exceeds this, nor twice it 2^63. */
  const BIG: int := 2329599472001718750

  ghost predicate Bounded(h: seq<int>, m: int) {
    |h| == 10 && forall i :: 0 <= i < 10 ==> -m <= h[i] <= m
  }

  lemma ProductBound(f: seq<int>, g: seq<int>)
    requires Wide(f) && Wide(g)
    ensures Bounded(Product(f, g), BIG)
  {
    hide Product, Dot;
    forall k | 0 <= k < 10
      ensures -BIG <= Product(f, g)[k] <= BIG
    {
      ProductAt(f, g, k);
      DotBound(f, g, k, 10);
    }
  }

  /** The factors of the squarings fit int32: doubled, times 19 and times 38. */
  lemma SquareFactors(f: seq<int>)
    requires Wide(f)
    ensures forall i :: 0 <= i < 10 ==> FitsInt32(2 * f[i]) && FitsInt32(19 * f[i])
    ensures forall i :: 0 <= i < 10 && i % 2 == 1 ==> FitsInt32(38 * f[i])
  {
  }

  lemma SmallProducts()
    ensures forall x: int, y: int {:trigger Mul(x, y)} :: -221459250 <= x <= 221459250 && -2103862875 <= y <= 2103862875
              ==> -465919894400343750 <= Mul(x, y) <= 465919894400343750
  {
    forall x: int, y: int | -221459250 <= x <= 221459250 && -2103862875 <= y <= 2103862875
      ensures -465919894400343750 <= Mul(x, y) <= 465919894400343750
    {
      MulBound(x, y, 221459250, 2103862875);
    }
  }

  ghost predicate Small(t: seq<int>) {
    |t| <= 6 && forall m :: 0 <= m < |t| ==> -465919894400343750 <= t[m] <= 465919894400343750
  }

  lemma SquareTermsSmall(f: seq<int>)
    requires Wide(f)
    ensures forall k :: 0 <= k < 10 ==> Small(SquareTerms(f)[k])
  {
    SmallProducts();
    hide Mul;
    var t := SquareTerms(f);
    assert Small(t[0]) && Small(t[1]) && Small(t[2]) && Small(t[3]) && Small(t[4]);
    assert Small(t[5]) && Small(t[6]) && Small(t[7]) && Small(t[8]) && Small(t[9]);
  }

  lemma {:induction false} SumBound(t: seq<int>, n: nat)
    requires Small(t) && n <= |t|
    ensures -(n * 465919894400343750) <= Sum(t, n) <= n * 465919894400343750
    ensures FitsInt64(Sum(t, n)) && (n > 0 ==> FitsInt64(t[n - 1]))
  {
    if n > 0 {
      SumBound(t, n - 1);
    }
  }

  /** The products and all partial sums of the squarings fit int64. */
  lemma SquareFits(f: seq<int>, k: nat, n: nat)
    requires Wide(f) && k < 10 && n <= |SquareTerms(f)[k]|
    ensures FitsInt64(Sum(SquareTerms(f)[k], n)) && (n > 0 ==> FitsInt64(SquareTerms(f)[k][n - 1]))
  {
    hide SquareTerms;
    SquareTermsSmall(f);
    SumBound(SquareTerms(f)[k], n);
  }

  /** Nor does doubling the limbs, as fe_sq2 does before the carries, leave int64. */
  lemma TwiceFits(f: seq<int>, k: nat)
    requires Wide(f) && k < 10
    ensures FitsInt64(Square(f)[k]) && FitsInt64(Square(f)[k] + Square(f)[k])
  {
    SquareIsProduct(f);
    ProductBound(f, f);
    hide Square, Product;
  }

  /** What fe_mul forms: factors in int32, products and sums in int64. */
  ghost predicate ProductFits(f: seq<int>, g: seq<int>) {
    && |f| == |g| == 10
    && forall k, n :: 0 <= k < 10 && 0 <= n <= 10 ==> FitsInt64(Dot(f, g, k, n)) && (n > 0 ==> TermFits(f, g, n - 1, k))
  }

  ghost predicate TermFits(f: seq<int>, g: seq<int>, i: nat, k: int)
    requires |f| == |g| == 10 && i < 10 && 0 <= k < 10
  {
    var j := (k - i) % 10;
    FitsInt32(Left(f, i, j)) && FitsInt32(Right(g, i, j)) && FitsInt64(Term(f, g, i, k))
  }

  lemma WideProductFits(f: seq<int>, g: seq<int>)
    requires Wide(f) && Wide(g)
    ensures ProductFits(f, g)
  {
    hide Dot, Term, Left, Right;
    forall k, n | 0 <= k < 10 && 0 <= n <= 10
      ensures FitsInt64(Dot(f, g, k, n)) && (n > 0 ==> TermFits(f, g, n - 1, k))
    {
      DotBound(f, g, k, n);
    }
  }

  /** What fe_sq and fe_sq2 form. */
  ghost predicate SquaringFits(f: seq<int>) {
    && |f| == 10 && (forall i :: 0 <= i < 10 ==> FitsInt32(2 * f[i]) && FitsInt32(19 * f[i]) && (i % 2 == 1 ==> FitsInt32(38 * f[i])))
    && (forall k, n :: 0 <= k < 10 && 0 <= n <= |SquareTerms(f)[k]| ==> FitsInt64(Sum(SquareTerms(f)[k], n)))
    && (forall k, n :: 0 <= k < 10 && 0 <= n < |SquareTerms(f)[k]| ==> FitsInt64(SquareTerms(f)[k][n]))
    && forall k :: 0 <= k < 10 ==> FitsInt64(Square(f)[k] + Square(f)[k])
  }

  lemma WideSquaringFits(f: seq<int>)
    requires Wide(f)
    ensures SquaringFits(f)
  {
    hide SquareTerms, Square, Sum;
    SquareFactors(f);
    forall k, n | 0 <= k < 10 && 0 <= n <= |SquareTerms(f)[k]|
      ensures FitsInt64(Sum(SquareTerms(f)[k], n)) && (n > 0 ==> FitsInt64(SquareTerms(f)[k][n - 1]))
    {
      SquareFits(f, k, n);
    }
    forall k | 0 <= k < 10
      ensures FitsInt64(Square(f)[k] + Square(f)[k])
    {
      TwiceFits(f, k);
    }
    forall k, n | 0 <= k < 10 && 0 <= n < |SquareTerms(f)[k]|
      ensures FitsInt64(SquareTerms(f)[k][n])
    {
      SquareFits(f, k, n + 1);
    }
  }

  // ----------------------------------------------------------------- carries

  /** Small enough for the rounding sum to fit int64. */
  ghost predicate Carriable(x: int) {
    -0x5000_0000_0000_0000 <= x <= 0x5000_0000_0000_0000
  }

  /** Rounding sum, carry, its multiple, the limb it is added to and the carry shifted back all fit int64. */
  ghost predicate CarryFits(x: int, y: int, times: int, i: int) {
    var carry := (x + Width(i) / 2) / Width(i);
    && FitsInt64(x + Width(i) / 2) && FitsInt64(carry) && FitsInt64(carry * times)
    && FitsInt64(y + carry * times) && FitsInt64(carry * Width(i)) && FitsInt64(x - carry * Width(i))
  }

  lemma CarriableFits(x: int, y: int, i: int)
    requires Carriable(x) && Carriable(y)
    ensures CarryFits(x, y, 1, i) && (i % 2 == 1 ==> CarryFits(x, y, 19, i))
  {
  }

  /** carry = (h[i] + half) >> width; h[i+1] += carry; h[i] -= carry << width. */
  function CarryRound(h: seq<int>, i: nat): (r: seq<int>)
    requires i + 1 < |h| && Carriable(h[i]) && Carriable(h[i + 1])
    ensures |r| == |h| && forall j :: 0 <= j < |h| && j != i && j != i + 1 ==> r[j] == h[j]
    ensures -(Width(i) / 2) <= r[i] < Width(i) / 2
    ensures r[i + 1] - h[i + 1] == (h[i] + Width(i) / 2) / Width(i)
    ensures CarryFits(h[i], h[i + 1], 1, i) && Value(r) == Value(h)
  {
    CarriableFits(h[i], h[i + 1], i);
    hide V, Width, Value, CarryFits;
    var carry := (h[i] + Width(i) / 2) / Width(i);
    CarryWeights(carry, i);
    RoundRange(h[i], i);
    AddTo(AddTo(h, i + 1, carry), i, -(carry * Width(i)))
  }

  /** What a rounding carry leaves behind. */
  lemma RoundRange(x: int, i: int)
    ensures -(Width(i) / 2) <= x - (x + Width(i) / 2) / Width(i) * Width(i) < Width(i) / 2
  {
  }

  lemma CarryWeights(carry: int, i: nat)
    ensures carry * V(i + 1) + (-(carry * Width(i))) * V(i) == 0
  {
    assert V(i + 1) == Width(i) * V(i);
    var w, v := Width(i), V(i);
    assert carry * (w * v) == (carry * w) * v;
  }

  /** The carry out of limb 9 counts 19 in limb 0. */
  function CarryTop(h: seq<int>): (r: seq<int>)
    requires |h| == 10 && Carriable(h[9]) && Carriable(h[0])
    ensures |r| == 10 && forall j :: 0 < j < 9 ==> r[j] == h[j]
    ensures CarryFits(h[9], h[0], 19, 9)
    ensures -0x100_0000 <= r[9] < 0x100_0000
    ensures var carry := (h[9] + 0x100_0000) / 0x200_0000; r[0] - h[0] == 19 * carry && Value(r) == Value(h) - carry * P
  {
    var carry := (h[9] + 0x100_0000) / 0x200_0000;
    CarriableFits(h[9], h[0], 9);
    TopWeights(carry);
    AddTo(AddTo(h, 0, carry * 19), 9, -(carry * 0x200_0000))
  }

  lemma TopWeights(carry: int)
    ensures carry * 19 * V(0) + (-(carry * 0x200_0000)) * V(9) == -(carry * P)
  {
    Weights();
  }

  /** The first six carries of the products. */
  method CarryFirst(h: seq<int>) returns (r: seq<int>)
    requires Bounded(h, 0x40B0_0000_0000_0000)
    ensures |r| == 10 && Value(r) == Value(h)
    ensures forall i :: 0 <= i < 7 && i != 3 ==> -Width(i) / 2 <= r[i] <= Width(i) / 2
    ensures forall i :: (i == 3 || 7 <= i < 10) ==> -0x40C0_0000_0000_0000 <= r[i] <= 0x40C0_0000_0000_0000
  {
    hide Value, CarryRound, CarryFits;
    r := CarryRound(h, 0);
    r := CarryRound(r, 4);
    r := CarryRound(r, 1);
    r := CarryFirstHigh(r);
  }

  method CarryFirstHigh(h: seq<int>) returns (r: seq<int>)
    requires |h| == 10 && forall i :: 0 <= i < 5 && i != 2 && i != 3 ==> -Width(i) / 2 <= h[i] <= Width(i) / 2
    requires forall i :: (i == 2 || i == 3 || 5 <= i < 10) ==> -0x40B8_0000_0000_0000 <= h[i] <= 0x40B8_0000_0000_0000
    ensures |r| == 10 && Value(r) == Value(h)
    ensures forall i :: 0 <= i < 7 && i != 3 ==> -Width(i) / 2 <= r[i] <= Width(i) / 2
    ensures forall i :: (i == 3 || 7 <= i < 10) ==> -0x40C0_0000_0000_0000 <= r[i] <= 0x40C0_0000_0000_0000
  {
    hide Value, CarryRound, CarryFits;
    r := CarryRound(h, 5);
    r := CarryRound(r, 2);
    r := CarryRound(r, 6);
  }

  /** The next four. */
  method CarrySecond(h: seq<int>) returns (r: seq<int>)
    requires |h| == 10 && forall i :: 0 <= i < 7 && i != 3 ==> -Width(i) / 2 <= h[i] <= Width(i) / 2
    requires forall i :: (i == 3 || 7 <= i < 10) ==> -0x40C0_0000_0000_0000 <= h[i] <= 0x40C0_0000_0000_0000
    ensures |r| == 10 && Value(r) == Value(h)
    ensures forall i :: 0 <= i < 9 && i != 5 ==> -Width(i) / 2 <= r[i] <= Width(i) / 2
    ensures -0x101_0000 <= r[5] <= 0x101_0000 && -0x40D0_0000_0000_0000 <= r[9] <= 0x40D0_0000_0000_0000
  {
    hide Value, CarryRound, CarryFits;
    r := CarryRound(h, 3);
    r := CarryRound(r, 7);
    r := CarryThird(r);
  }

  method CarryThird(h: seq<int>) returns (r: seq<int>)
    requires |h| == 10 && forall i :: 0 <= i < 8 && i != 4 ==> -Width(i) / 2 <= h[i] <= Width(i) / 2
    requires -0x30_0000_0000 <= h[4] <= 0x30_0000_0000
    requires forall i :: 8 <= i < 10 ==> -0x40C8_0000_0000_0000 <= h[i] <= 0x40C8_0000_0000_0000
    ensures |r| == 10 && Value(r) == Value(h)
    ensures forall i :: 0 <= i < 9 && i != 5 ==> -Width(i) / 2 <= r[i] <= Width(i) / 2
    ensures -0x101_0000 <= r[5] <= 0x101_0000 && -0x40D0_0000_0000_0000 <= r[9] <= 0x40D0_0000_0000_0000
  {
    hide Value, CarryRound, CarryFits;
    r := CarryRound(h, 4);
    r := CarryRound(r, 8);
  }

  /** The last two, through the top. */
  method CarryLast(h: seq<int>) returns (r: seq<int>, ghost q: int)
    requires |h| == 10 && forall i :: 0 <= i < 9 && i != 5 ==> -Width(i) / 2 <= h[i] <= Width(i) / 2
    requires -0x101_0000 <= h[5] <= 0x101_0000 && -0x40D0_0000_0000_0000 <= h[9] <= 0x40D0_0000_0000_0000
    ensures Tight(r) && Value(r) == Value(h) - q * P
  {
    hide Value, CarryRound, CarryTop, CarryFits;
    q := (h[9] + 0x100_0000) / 0x200_0000;
    r := CarryTop(h);
    r := CarryRound(r, 0);
  }

  /** The twelve carries that end fe_mul, fe_sq and fe_sq2. */
  method CarryProduct(h: seq<int>) returns (r: seq<int>, ghost q: int)
    requires Bounded(h, 0x40B0_0000_0000_0000)
    ensures Tight(r) && Value(r) == Value(h) - q * P
  {
    hide Value, Tight;
    r := CarryFirst(h);
    r := CarrySecond(r);
    r, q := CarryLast(r);
  }

  // ------------------------------------------------------------- the products

  ghost predicate Congruent(a: int, b: int) {
    exists q :: a == b + q * P
  }

  lemma ByMultiple(a: int, b: int, q: int)
    requires a == b - q * P
    ensures Congruent(a, b)
  {
    assert a == b + (-q) * P;
  }

  lemma {:induction false} ValueTwice(h: seq<int>, t: seq<int>)
    requires |h| == |t| && forall k :: 0 <= k < |h| ==> t[k] == h[k] + h[k]
    ensures Value(t) == 2 * Value(h)
  {
    ValueSum(h, h, t);
  }

  lemma Halves(x: int, v: int, q: int, q1: int, r: int)
    requires v + q * P == x * x && r == 2 * v - q1 * P
    ensures Congruent(r, 2 * x * x)
  {
    assert 2 * x * x == 2 * (x * x);
    ByMultiple(r, 2 * x * x, 2 * q + q1);
  }

  /** What the products return they accept again. */
  lemma TightIsWide(h: seq<int>)
    requires Tight(h)
    ensures Wide(h)
  {
  }

  // ---------------------------------------------------------- in place, as called

  /** The ten stores that end every function; they come after all loads, so h may be an argument too. */
  method Store(h: array<int>, r: seq<int>)
    requires h.Length == |r|
    modifies h
    ensures h[..] == r
  {
    forall i | 0 <= i < |r| {
      h[i] := r[i];
    }
  }

  /** fe_mul: f g modulo P, with tight limbs. */
  method FeMul(h: array<int>, f: array<int>, g: array<int>)
    requires h.Length == 10 && Wide(f[..]) && Wide(g[..])
    modifies h
    ensures Tight(h[..]) && Congruent(Value(h[..]), Value(old(f[..])) * Value(old(g[..])))
  {
    hide Value, Product, Tight, Collects;
    var x, y := f[..], g[..];
    assert ProductFits(x, y) by { WideProductFits(x, y); }
    hide ProductFits;
    ProductBound(x, y);
    ProductCollects(x, y);
    ghost var q := ProductValue(Product(x, y), x, y);
    var r, q1 := CarryProduct(Product(x, y));
    ByMultiple(Value(r), Value(x) * Value(y), q + q1);
    TightLength(r);
    Store(h, r);
  }

  /** fe_sq: the same with f itself. */
  method FeSq(h: array<int>, f: array<int>)
    requires h.Length == 10 && Wide(f[..])
    modifies h
    ensures Tight(h[..]) && Congruent(Value(h[..]), Value(old(f[..])) * Value(old(f[..])))
  {
    hide Value, Product, Square, Tight, Collects;
    var x := f[..];
    assert SquaringFits(x) by { WideSquaringFits(x); }
    hide SquaringFits;
    SquareIsProduct(x);
    ProductBound(x, x);
    ProductCollects(x, x);
    ghost var q := ProductValue(Square(x), x, x);
    var r, q1 := CarryProduct(Square(x));
    ByMultiple(Value(r), Value(x) * Value(x), q + q1);
    TightLength(r);
    Store(h, r);
  }

  /** fe_sq2: twice the square, doubled before the carries. */
  method FeSq2(h: array<int>, f: array<int>)
    requires h.Length == 10 && Wide(f[..])
    modifies h
    ensures Tight(h[..]) && Congruent(Value(h[..]), 2 * Value(old(f[..])) * Value(old(f[..])))
  {
    hide Value, Product, Square, Tight, Collects;
    var x := f[..];
    assert SquaringFits(x) by { WideSquaringFits(x); }
    hide SquaringFits;
    SquareIsProduct(x);
    ProductBound(x, x);
    ProductCollects(x, x);
    ghost var q := ProductValue(Square(x), x, x);
    var s := Square(x);
    var t := seq(10, k requires 0 <= k < 10 => s[k] + s[k]);
    ValueTwice(s, t);
    var r, q1 := CarryProduct(t);
    Halves(Value(x), Value(s), q, q1, Value(r));
    TightLength(r);
    Store(h, r);
  }

  lemma TightLength(h: seq<int>)
    requires Tight(h)
    ensures |h| == 10
  {
  }
}
