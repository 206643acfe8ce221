/** The curve y^2 = x^3 + 486662 x^2 + x modulo P under chord and tangent, and the coordinate formulas of
    Externals/ed25519/key_exchange.c as polynomials over it. */
module Montgomery {
  import opened Radix
  import opened FieldElement
  import FieldBytes
  import opened FieldPowers
  import opened Ladder

  const A: int := 486662

  // --------------------------------------------------------------- modulo P

  predicate Zero(e: int) {
    e % P == 0
  }

  lemma Same(a: int, b: int)
    ensures Zero(a - b) <==> a % P == b % P
  {
    if Zero(a - b) {
      ByMultiple(a, b, -((a - b) / P));
      FieldBytes.SameRemainder(a, b);
    }
    if a % P == b % P {
      MultipleIsZero(a - b, a / P - b / P);
    }
  }

  lemma MultipleIsZero(e: int, q: int)
    requires e == q * P
    ensures Zero(e)
  {
    ByMultiple(e, 0, -q);
    FieldBytes.SameRemainder(e, 0);
  }

  /** What vanishes modulo P may be scaled and added. */
  lemma CombineMultiples(e: int, k: int, a: int, l: int, b: int)
    requires Zero(a) && Zero(b) && e == k * a + l * b
    ensures Zero(e)
  {
    var q, r := a / P, b / P;
    assert a == q * P && b == r * P;
    assert k * a == k * q * P && l * b == l * r * P;
    assert (k * q + l * r) * P == k * q * P + l * r * P;
    MultipleIsZero(e, k * q + l * r);
  }

  lemma PlusOf(a: int, b: int)
    ensures Plus(a % P, b % P) == (a + b) % P
  {
    SumModulo(a, b, a % P, b % P, 1);
  }

  lemma MinusOf(a: int, b: int)
    ensures Minus(a % P, b % P) == (a - b) % P
  {
    SumModulo(a, b, a % P, b % P, -1);
  }

  lemma TimesOf(a: int, b: int)
    ensures Times'(a % P, b % P) == a * b % P
  {
    ByMultiple(a, a % P, -(a / P));
    ByMultiple(b, b % P, -(b / P));
    hide Congruent;
    CongruentMul(a, a % P, b, b % P);
    FieldBytes.SameRemainder(a * b, (a % P) * (b % P));
  }

  // --------------------------------------------------- the formulas as polynomials

  /** Doubling X : Z gives (X^2 - Z^2)^2 : 4 X Z (X^2 + 486662 X Z + Z^2). */
  lemma DoubleIs(r: Ratio)
    ensures var x, z := r.x, r.z;
      && Double(r).x == (x * x - z * z) * (x * x - z * z) % P
      && Double(r).z == 4 * x * z * (x * x + 486662 * x * z + z * z) % P
  {
    var x, z := r.x, r.z;
    var s, d := x + z, x - z;
    TimesOf(s, s);
    TimesOf(d, d);
    TimesOf(s * s, d * d);
    MinusOf(s * s, d * d);
    var e := s * s - d * d;
    assert 121666 % P == 121666;
    TimesOf(121666, e);
    PlusOf(d * d, 121666 * e);
    TimesOf(e, d * d + 121666 * e);
    DoubleTerms(x, z);
  }

  lemma DoubleTerms(x: int, z: int)
    ensures (x + z) * (x + z) * ((x - z) * (x - z)) == (x * x - z * z) * (x * x - z * z)
    ensures (x + z) * (x + z) - (x - z) * (x - z) == 4 * x * z
    ensures (x - z) * (x - z) + 121666 * (4 * x * z) == x * x + 486662 * x * z + z * z
  {
    var s, d := x + z, x - z;
    assert s * d == x * x - z * z;
    assert s * s * (d * d) == s * d * (s * d);
  }

  /** Adding X : Z and X' : Z' whose difference is u gives 4 (X X' - Z Z')^2 : 4 u (X Z' - Z X')^2. */
  lemma DiffAddIs(u: int, r: Ratio, s: Ratio)
    ensures var m, n := r.x * s.x - r.z * s.z, r.x * s.z - r.z * s.x;
      DiffAdd(u, r, s).x == 4 * (m * m) % P && DiffAdd(u, r, s).z == 4 * u * (n * n) % P
  {
    var a, b := (s.x - s.z) * (r.x + r.z), (s.x + s.z) * (r.x - r.z);
    var m, n := r.x * s.x - r.z * s.z, r.x * s.z - r.z * s.x;
    TimesOf(s.x - s.z, r.x + r.z);
    TimesOf(s.x + s.z, r.x - r.z);
    DiffAddTerms(r, s);
    hide Times';
    SquaresOf(u, a, b, m, n);
  }

  lemma SquaresOf(u: int, a: int, b: int, m: int, n: int)
    requires a + b == 2 * m && a - b == -2 * n
    ensures var sum, diff := Plus(a % P, b % P), Minus(a % P, b % P);
      Times'(sum, sum) == 4 * (m * m) % P && Times'(u, Times'(diff, diff)) == 4 * u * (n * n) % P
  {
    PlusOf(a, b);
    MinusOf(a, b);
    hide Plus, Minus, Times';
    TwiceSquared(a + b, m);
    TwiceSquared(a - b, -n);
    var square := 4 * (n * n);
    assert 4 * (-n * -n) == square;
    Scaled(u, square);
    FourTimes(u, n);
  }

  lemma TwiceSquared(v: int, m: int)
    requires v == 2 * m
    ensures Times'(v % P, v % P) == 4 * (m * m) % P
  {
    TimesOf(v, v);
    hide Times';
    assert v * v == 4 * (m * m);
  }

  lemma FourTimes(u: int, n: int)
    ensures u * (4 * (n * n)) == 4 * u * (n * n)
  {
  }

  lemma DiffAddTerms(r: Ratio, s: Ratio)
    ensures var a, b := (s.x - s.z) * (r.x + r.z), (s.x + s.z) * (r.x - r.z);
      a + b == 2 * (r.x * s.x - r.z * s.z) && a - b == -2 * (r.x * s.z - r.z * s.x)
  {
  }

  lemma Scaled(u: int, v: int)
    ensures Times'(u, v % P) == u * v % P
  {
    Same(u * (v % P), u * v);
    MultipleIsZero(u * (v % P) - u * v, -u * (v / P));
  }

  // --------------------------------------------------------------------- the curve

  ghost predicate Fermat(a: int) {
    a * Exp(a, P - 2) % P == 1
  }

  /** Fermat's little theorem for P, which is prime. */
  ghost predicate Field() {
    forall a {:trigger Fermat(a)} :: Zero(a) || Fermat(a)
  }

  /** What counts as zero: the multiples of P. Polynomials are reasoned about in terms of `zero` alone. */
  ghost predicate Modulo(zero: int -> bool) {
    forall e {:trigger Zero(e)} :: zero(e) <==> Zero(e)
  }

  /** What vanishes may be scaled and added. */
  lemma Combine(zero: int -> bool, e: int, k: int, a: int, l: int, b: int)
    requires Modulo(zero) && zero(a) && zero(b) && e == k * a + l * b
    ensures zero(e)
  {
    assert Zero(a) && Zero(b);
    CombineMultiples(e, k, a, l, b);
  }

  lemma Units(zero: int -> bool)
    requires Modulo(zero)
    ensures !zero(2) && !zero(4) && !zero(A * A - 4)
  {
    assert !Zero(2) && !Zero(4) && !Zero(A * A - 4);
  }

  /** A product only vanishes with one of its factors. */
  lemma DivideOut(zero: int -> bool, a: int, b: int)
    requires Modulo(zero) && Field() && zero(a * b) && !zero(a)
    ensures zero(b)
  {
    var i := Inverse(a);
    assert !Zero(a);
    InverseIs(a);
    OneLess(zero, a * i);
    hide Field, Inverse, Modulo;
    CancelTerms(a, b, i);
    Combine(zero, b, i, a * b, -b, a * i - 1);
  }

  lemma OneLess(zero: int -> bool, v: int)
    requires Modulo(zero) && v % P == 1
    ensures zero(v - 1)
  {
    Same(v, 1);
    assert Zero(v - 1);
  }

  lemma InverseIs(a: int)
    requires Field() && !Zero(a)
    ensures Times'(a, Inverse(a)) == 1
  {
    assert Fermat(a);
    hide Zero, Times', Exp;
    Scaled(a, Exp(a, P - 2));
  }

  lemma CancelTerms(a: int, b: int, i: int)
    ensures b == i * (a * b) + (-b) * (a * i - 1)
  {
    assert i * (a * b) == a * i * b;
  }

  lemma NotZero(zero: int -> bool, a: int, b: int)
    requires Modulo(zero) && Field() && !zero(a) && !zero(b)
    ensures !zero(a * b)
  {
    hide Field, Modulo;
    if zero(a * b) {
      DivideOut(zero, a, b);
    }
  }

  datatype Point = Infinite | Finite(x: int, y: int)

  function Cubic(x: int): int {
    x * x * x + A * (x * x) + x
  }

  ghost predicate OnCurve(zero: int -> bool, p: Point) {
    p.Finite? ==> 0 <= p.x < P && 0 <= p.y < P && zero(p.y * p.y - Cubic(p.x))
  }

  /** l is the slope through p and q, or of the tangent in p. */
  ghost predicate Slope(zero: int -> bool, p: Point, q: Point, l: int)
    requires p.Finite? && q.Finite?
  {
    if p.x != q.x then zero(l * (q.x - p.x) - (q.y - p.y))
    else zero(l * (2 * p.y) - (3 * (p.x * p.x) + 2 * A * p.x + 1))
  }

  /** r is the sum of p and q: the third point on the line of slope l, reflected. */
  ghost predicate OnLine(zero: int -> bool, p: Point, q: Point, r: Point, l: int)
    requires p.Finite? && q.Finite?
  {
    && r.Finite? && Slope(zero, p, q, l)
    && zero(r.x - (l * l - A - p.x - q.x)) && zero(r.y - (l * (p.x - r.x) - p.y))
  }

  /** r = p + q by chord and tangent. */
  ghost predicate IsSum(zero: int -> bool, p: Point, q: Point, r: Point) {
    match (p, q)
    case (Infinite, _) => r == q
    case (_, Infinite) => r == p
    case (Finite(x, y), Finite(x', y')) =>
      if x == x' && zero(y + y') then r == Infinite else exists l :: OnLine(zero, p, q, r, l)
  }

  // ------------------------------------------------------- coordinates of sums

  /** Twice a point: 4 f(x) x' = (x^2 - 1)^2. */
  lemma TangentCoordinate(zero: int -> bool, p: Point, r: Point, l: int)
    requires Modulo(zero) && p.Finite? && OnCurve(zero, p) && OnLine(zero, p, p, r, l)
    ensures zero(4 * Cubic(p.x) * r.x - (p.x * p.x - 1) * (p.x * p.x - 1))
  {
    var x, f, yy, c := p.x, Cubic(p.x), p.y * p.y, A + 2 * p.x;
    var w, t := l * (2 * p.y), 3 * (x * x) + 2 * A * x + 1;
    hide Modulo, Cubic;
    DifferenceOfSquares(w, t);
    Combine(zero, w * w - t * t, w + t, w - t, 0, w - t);
    var e := r.x - (l * l - A - p.x - p.x);
    ScaledLine(l, p.y, r.x, c);
    Combine(zero, 4 * yy * r.x - (w * w - 4 * yy * c), 4 * yy, e, 0, e);
    Combine(zero, 4 * yy * r.x - (w * w - 4 * yy * c) + (w * w - t * t),
            1, 4 * yy * r.x - (w * w - 4 * yy * c), 1, w * w - t * t);
    TangentTerms(f, yy, r.x, c, t * t);
    Combine(zero, 4 * f * r.x - (t * t - 4 * f * c), 1, 4 * yy * r.x - (t * t - 4 * yy * c), -4 * (r.x + c), yy - f);
    TangentCubic(x);
  }

  lemma DifferenceOfSquares(a: int, b: int)
    ensures a * a - b * b == (a + b) * (a - b)
  {
  }

  lemma ScaledLine(l: int, y: int, x: int, c: int)
    ensures var w := l * (2 * y); 4 * (y * y) * x - (w * w - 4 * (y * y) * c) == 4 * (y * y) * (x - (l * l - c))
  {
    var w := l * (2 * y);
    assert w * w == 4 * (y * y) * (l * l);
  }

  lemma TangentTerms(f: int, yy: int, x: int, c: int, t: int)
    ensures 4 * f * x - (t - 4 * f * c) == 4 * yy * x - (t - 4 * yy * c) + -4 * (x + c) * (yy - f)
  {
  }

  lemma TangentCubic(x: int)
    ensures var t := 3 * (x * x) + 2 * A * x + 1;
      t * t - 4 * Cubic(x) * (A + 2 * x) == (x * x - 1) * (x * x - 1)
  {
  }

  /** The sum of two points with different first coordinates. */
  lemma ChordCoordinate(zero: int -> bool, p: Point, q: Point, r: Point, l: int)
    requires Modulo(zero) && p.Finite? && q.Finite? && p.x != q.x && OnLine(zero, p, q, r, l)
    ensures var d, m := q.x - p.x, q.y - p.y; zero(r.x * (d * d) - (m * m - (A + p.x + q.x) * (d * d)))
  {
    var d, m, c := q.x - p.x, q.y - p.y, A + p.x + q.x;
    var e := r.x - (l * l - A - p.x - q.x);
    hide Modulo;
    ChordTerms(l, d, m, r.x, c);
    Combine(zero, r.x * (d * d) - (m * m - c * (d * d)), d * d, e, l * d + m, l * d - m);
  }

  lemma ChordTerms(l: int, d: int, m: int, x: int, c: int)
    ensures x * (d * d) - (m * m - c * (d * d)) == d * d * (x - (l * l - c)) + (l * d + m) * (l * d - m)
  {
    assert (l * d + m) * (l * d - m) == l * d * (l * d) - m * m;
    assert l * d * (l * d) == d * d * (l * l);
  }

  /** The coordinates of p + q and p - q multiply to (a - 1)^2 / (x - x')^2, a the product of x and x'. */
  lemma CoordinateProduct(zero: int -> bool, p: Point, q: Point, v: int, u: int)
    requires Modulo(zero) && Field() && p.Finite? && q.Finite? && !zero(q.x - p.x)
    requires OnCurve(zero, p) && OnCurve(zero, q)
    requires var d, m, c := q.x - p.x, q.y - p.y, A + p.x + q.x; zero(v * (d * d) - (m * m - c * (d * d)))
    requires var d, n, c := q.x - p.x, q.y + p.y, A + p.x + q.x; zero(u * (d * d) - (n * n - c * (d * d)))
    ensures var d, a := q.x - p.x, p.x * q.x; zero(u * v * (d * d) - (a - 1) * (a - 1))
  {
    var d, m, n, c := q.x - p.x, q.y - p.y, q.y + p.y, A + p.x + q.x;
    var a, dd := p.x * q.x, d * d;
    var f, f', y, y' := Cubic(p.x), Cubic(q.x), p.y * p.y, q.y * q.y;
    hide Modulo, Field;
    ProductsAgree(zero, v * dd, m * m - c * dd, u * dd, n * n - c * dd);
    SumsOfSquares(p.y, q.y);
    SquaresAgree(zero, y, y', f, f');
    ProductTerms(m * m, n * n, y, y', f, f', c * dd);
    Combine(zero,
            (m * m - c * dd) * (n * n - c * dd) - ((f' - f) * (f' - f) - 2 * (c * dd) * (f + f') + c * dd * (c * dd)),
            1, (y' - y) * (y' - y) - (f' - f) * (f' - f), -2 * (c * dd), y + y' - (f + f'));
    CubicTerms(p.x, q.x);
    var w := u * v * dd - (a - 1) * (a - 1);
    Rest(u, v, dd, a);
    Combine(zero, dd * w, 1, v * dd * (u * dd) - (m * m - c * dd) * (n * n - c * dd),
            1, (m * m - c * dd) * (n * n - c * dd) - dd * ((a - 1) * (a - 1)));
    NotZero(zero, d, d);
    DivideOut(zero, dd, w);
  }

  lemma ProductsAgree(zero: int -> bool, a: int, a': int, b: int, b': int)
    requires Modulo(zero) && zero(a - a') && zero(b - b')
    ensures zero(a * b - a' * b')
  {
    hide Modulo;
    Combine(zero, a * b - a' * b', b, a - a', a', b - b');
  }

  lemma SumsOfSquares(y: int, y': int)
    ensures (y' - y) * (y' - y) + (y' + y) * (y' + y) == 2 * (y * y + y' * y')
    ensures (y' - y) * (y' - y) * ((y' + y) * (y' + y)) == (y' * y' - y * y) * (y' * y' - y * y)
  {
    var s, d := y' + y, y' - y;
    assert s * d == y' * y' - y * y;
    assert d * d * (s * s) == s * d * (s * d);
  }

  lemma SquaresAgree(zero: int -> bool, y: int, y': int, f: int, f': int)
    requires Modulo(zero) && zero(y - f) && zero(y' - f')
    ensures zero((y' - y) * (y' - y) - (f' - f) * (f' - f)) && zero(y + y' - (f + f'))
  {
    hide Modulo;
    Combine(zero, y' - y - (f' - f), 1, y' - f', -1, y - f);
    ProductsAgree(zero, y' - y, f' - f, y' - y, f' - f);
    Combine(zero, y + y' - (f + f'), 1, y - f, 1, y' - f');
  }

  lemma ProductTerms(mm: int, nn: int, y: int, y': int, f: int, f': int, k: int)
    requires mm + nn == 2 * (y + y') && mm * nn == (y' - y) * (y' - y)
    ensures (mm - k) * (nn - k) - ((f' - f) * (f' - f) - 2 * k * (f + f') + k * k)
         == (y' - y) * (y' - y) - (f' - f) * (f' - f) + -2 * k * (y + y' - (f + f'))
  {
    assert (mm - k) * (nn - k) == mm * nn - k * (mm + nn) + k * k;
  }

  /** The cubic at two places: with c = A + x + x', d = x' - x and a = x x',
      (f' - f)^2 - 2 c d^2 (f + f') + (c d^2)^2 = d^2 (a - 1)^2. */
  lemma CubicTerms(x: int, x': int)
    ensures var d, a, c := x' - x, x * x', A + x + x';
      var f, f', k := Cubic(x), Cubic(x'), c * (d * d);
      (f' - f) * (f' - f) - 2 * k * (f + f') + k * k == d * d * ((a - 1) * (a - 1))
  {
    var s, d, a, c := x + x', x' - x, x * x', A + x + x';
    var f, f', dd, g := Cubic(x), Cubic(x'), d * d, s * c - a + 1;
    CubicDifference(x, x');
    CubicSum(x, x');
    hide Cubic;
    var m, h := f' - f, f + f';
    assert m == d * g;
    InnerTerms(s, c, a, dd, h);
    OuterTerms(m, d, g, c, h, (a - 1) * (a - 1));
  }

  lemma CubicDifference(x: int, x': int)
    ensures Cubic(x') - Cubic(x) == (x' - x) * ((x + x') * (A + x + x') - x * x' + 1)
  {
    var d, s, g := x' - x, x' + x, x * x + x * x' + x' * x';
    var cube, square := x' * x' * x' - x * x * x, x' * x' - x * x;
    assert cube == d * g by { CubeDifference(x, x'); }
    assert square == s * d by { DifferenceOfSquares(x', x); }
    assert Cubic(x') - Cubic(x) == cube + A * square + d;
    hide Cubic;
    assert (x + x') * (A + x + x') - x * x' + 1 == g + A * s + 1 by { SlopeTerms(x, x'); }
    OutOfSlope(d, s, g);
  }

  lemma SlopeTerms(x: int, y: int)
    ensures (x + y) * (A + x + y) - x * y + 1 == x * x + x * y + y * y + A * (y + x) + 1
  {
  }

  lemma OutOfSlope(d: int, s: int, g: int)
    ensures d * g + A * (s * d) + d == d * (g + A * s + 1)
  {
  }

  lemma CubeDifference(x: int, y: int)
    ensures y * y * y - x * x * x == (y - x) * (x * x + x * y + y * y)
  {
  }

  lemma CubicSum(x: int, x': int)
    ensures var s, a, c := x + x', x * x', A + x + x';
      Cubic(x) + Cubic(x') == s * s * c - 2 * a * c - a * s + s
  {
  }

  lemma InnerTerms(s: int, c: int, a: int, dd: int, h: int)
    requires dd == s * s - 4 * a && h == s * s * c - 2 * a * c - a * s + s
    ensures var g := s * c - a + 1; g * g - 2 * c * h + c * c * dd == (a - 1) * (a - 1)
  {
  }

  lemma OuterTerms(m: int, d: int, g: int, c: int, h: int, t: int)
    requires m == d * g && g * g - 2 * c * h + c * c * (d * d) == t
    ensures var k := c * (d * d); m * m - 2 * k * h + k * k == d * d * t
  {
    var dd := d * d;
    assert m * m == dd * (g * g);
    assert 2 * (c * dd) * h == dd * (2 * c * h);
    assert c * dd * (c * dd) == dd * (c * c * dd);
  }

  lemma Rest(u: int, v: int, dd: int, a: int)
    ensures dd * (u * v * dd - (a - 1) * (a - 1)) == v * dd * (u * dd) - dd * ((a - 1) * (a - 1))
  {
  }

  // ------------------------------------------------------------- ratios and points

  /** r is x as a quotient. */
  ghost predicate IsRatio(zero: int -> bool, r: Ratio, x: int) {
    !zero(r.z) && zero(r.x - x * r.z)
  }

  /** r is the coordinate of p as a quotient; the point at infinity has a denominator of 0. */
  ghost predicate Stands(zero: int -> bool, r: Ratio, p: Point) {
    match p
    case Infinite => zero(r.z) && !zero(r.x)
    case Finite(x, _) => IsRatio(zero, r, x)
  }

  /** The cubic vanishes only where the second coordinate does, and not where x^2 = 1. */
  lemma CubicZero(zero: int -> bool, p: Point)
    requires Modulo(zero) && Field() && p.Finite? && OnCurve(zero, p)
    ensures zero(Cubic(p.x)) <==> zero(p.y + p.y)
    ensures zero(Cubic(p.x)) ==> !zero(p.x * p.x - 1)
  {
    var f, y, x := Cubic(p.x), p.y, p.x;
    Units(zero);
    hide Modulo, Field;
    if zero(f) {
      Combine(zero, y * y, 1, y * y - f, 1, f);
      if !zero(y) {
        DivideOut(zero, y, y);
      }
      Combine(zero, y + y, 2, y, 0, y);
      if zero(x * x - 1) {
        NoDoubleRoot(zero, x);
      }
    }
    if zero(y + y) {
      assert 2 * y == y + y;
      DivideOut(zero, 2, y);
      Combine(zero, f, y, y, -1, y * y - f);
    }
  }

  lemma NoDoubleRoot(zero: int -> bool, x: int)
    requires Modulo(zero) && zero(Cubic(x))
    ensures !zero(x * x - 1)
  {
    var s, t := x * x - 1, 2 * x + A;
    assert Cubic(x) == (x + A) * s + t;
    assert A * A - 4 == 4 * s - (2 * x - A) * t;
    Units(zero);
    hide Modulo, Cubic;
    if zero(s) {
      Combine(zero, t, 1, Cubic(x), -(x + A), s);
      Combine(zero, A * A - 4, 4, s, -(2 * x - A), t);
    }
  }

  lemma DoubleModulo(zero: int -> bool, r: Ratio)
    requires Modulo(zero)
    ensures var x, z := r.x, r.z;
      && zero(Double(r).x - (x * x - z * z) * (x * x - z * z))
      && zero(Double(r).z - 4 * x * z * (x * x + A * z * x + z * z))
  {
    DoubleIs(r);
    hide Double;
    Reduced'(zero, (r.x * r.x - r.z * r.z) * (r.x * r.x - r.z * r.z));
    assert A * r.z * r.x == 486662 * r.x * r.z;
    Reduced'(zero, 4 * r.x * r.z * (r.x * r.x + A * r.z * r.x + r.z * r.z));
  }

  lemma Reduced'(zero: int -> bool, e: int)
    requires Modulo(zero)
    ensures zero(e % P - e)
  {
    MultipleIsZero(e % P - e, -(e / P));
  }

  /** What Double computes from a quotient equal to x. */
  lemma DoubleOfRatio(zero: int -> bool, r: Ratio, x: int)
    requires Modulo(zero) && zero(r.x - x * r.z)
    ensures var zz, s := r.z * r.z, x * x - 1;
      zero(Double(r).x - s * s * (zz * zz)) && zero(Double(r).z - 4 * Cubic(x) * (zz * zz))
  {
    DoubleModulo(zero, r);
    hide Double;
    DoubledSquare(zero, Double(r).x, r.x, r.z, x);
    DoubledCubic(zero, Double(r).z, r.x, r.z, x);
  }

  lemma DoubledSquare(zero: int -> bool, e: int, x: int, z: int, k: int)
    requires Modulo(zero) && zero(x - k * z) && zero(e - (x * x - z * z) * (x * x - z * z))
    ensures zero(e - (k * k - 1) * (k * k - 1) * (z * z * (z * z)))
  {
    var s, zz, v := k * k - 1, z * z, k * z;
    assert v * v == k * k * zz;
    assert x * x - zz - s * zz == (x + v) * (x - v);
    assert s * zz * (s * zz) == s * s * (zz * zz);
    hide Modulo;
    Combine(zero, x * x - zz - s * zz, x + v, x - v, 0, x - v);
    ProductsAgree(zero, x * x - zz, s * zz, x * x - zz, s * zz);
    Combine(zero, e - s * zz * (s * zz),
            1, e - (x * x - zz) * (x * x - zz), 1, (x * x - zz) * (x * x - zz) - s * zz * (s * zz));
  }

  lemma DoubledCubic(zero: int -> bool, e: int, x: int, z: int, k: int)
    requires Modulo(zero) && zero(x - k * z) && zero(e - 4 * x * z * (x * x + A * z * x + z * z))
    ensures zero(e - 4 * Cubic(k) * (z * z * (z * z)))
  {
    var v, m, l := k * z, A * z, z * z;
    DoubleCubic(k, z);
    DoubleStep(x, v, z, m, l);
    var w, w' := 4 * x * z * (x * x + m * x + l), 4 * v * z * (v * v + m * v + l);
    var t := 4 * z * (x * x + x * v + v * v + m * (x + v) + l);
    hide Modulo, Cubic;
    Combine(zero, e - w', 1, e - w, t, x - v);
  }

  lemma DoubleCubic(x: int, z: int)
    ensures var v := x * z; 4 * v * z * (v * v + A * z * v + z * z) == 4 * Cubic(x) * (z * z * (z * z))
  {
    var v, g, zz := x * z, x * x + A * x + 1, z * z;
    assert v * v == x * x * zz && A * z * v == A * x * zz;
    assert g * zz == x * x * zz + A * x * zz + zz;
    CubicFactor(x);
    hide Cubic;
    assert 4 * v * z == 4 * x * zz;
    FourFactors(x, zz, g);
  }

  lemma CubicFactor(x: int)
    ensures Cubic(x) == x * (x * x + A * x + 1)
  {
  }

  lemma FourFactors(x: int, zz: int, g: int)
    ensures 4 * x * zz * (g * zz) == 4 * (x * g) * (zz * zz)
  {
    assert x * zz * (g * zz) == x * g * (zz * zz);
  }

  lemma DoubleStep(x: int, v: int, z: int, k: int, l: int)
    ensures 4 * x * z * (x * x + k * x + l) - 4 * v * z * (v * v + k * v + l)
         == 4 * z * (x * x + x * v + v * v + k * (x + v) + l) * (x - v)
  {
    CubicStep(x, v, k, l);
    OutOf(z, x, x * x + k * x + l, v, v * v + k * v + l, x * x + x * v + v * v + k * (x + v) + l);
  }

  lemma OutOf(z: int, x: int, f: int, v: int, g: int, h: int)
    requires x * f - v * g == h * (x - v)
    ensures 4 * x * z * f - 4 * v * z * g == 4 * z * h * (x - v)
  {
    var d := x - v;
    assert 4 * x * z * f == 4 * z * (x * f) && 4 * v * z * g == 4 * z * (v * g);
    assert 4 * z * h * d == 4 * z * (h * d);
  }

  lemma CubicStep(x: int, v: int, k: int, l: int)
    ensures x * (x * x + k * x + l) - v * (v * v + k * v + l) == (x * x + x * v + v * v + k * (x + v) + l) * (x - v)
  {
  }

  /** Double doubles points. */
  lemma DoubleStands(zero: int -> bool, r: Ratio, p: Point, q: Point)
    requires Modulo(zero) && Field() && OnCurve(zero, p) && IsSum(zero, p, p, q) && Stands(zero, r, p)
    ensures Stands(zero, Double(r), q)
  {
    match p {
      case Infinite => DoubleInfinite(zero, r);
      case Finite(x, y) =>
        DoubleOfRatio(zero, r, x);
        CubicZero(zero, p);
        hide Double, Field, Cubic;
        if zero(y + y) {
          DoubleEnds(zero, Double(r), r.z, x * x - 1, Cubic(x));
        } else {
          var l :| OnLine(zero, p, p, q, l);
          TangentCoordinate(zero, p, q, l);
          hide Modulo;
          DoubleTangent(zero, Double(r), r.z, x * x - 1, Cubic(x), q.x);
        }
    }
  }

  lemma DoubleEnds(zero: int -> bool, d: Ratio, z: int, s: int, f: int)
    requires Modulo(zero) && Field() && !zero(z) && !zero(s) && zero(f)
    requires zero(d.x - s * s * (z * z * (z * z))) && zero(d.z - 4 * f * (z * z * (z * z)))
    ensures zero(d.z) && !zero(d.x)
  {
    hide Modulo, Field;
    var w := z * z * (z * z);
    NotZero(zero, z, z);
    NotZero(zero, z * z, z * z);
    NotZero(zero, s, s);
    NotZero(zero, s * s, w);
    Nonzero(zero, d.x, s * s * w);
    assert 4 * f * w == 4 * w * f;
    Combine(zero, d.z, 1, d.z - 4 * f * w, 4 * w, f);
  }

  lemma DoubleTangent(zero: int -> bool, d: Ratio, z: int, s: int, f: int, k: int)
    requires Modulo(zero) && Field() && !zero(z) && !zero(f) && zero(4 * f * k - s * s)
    requires zero(d.x - s * s * (z * z * (z * z))) && zero(d.z - 4 * f * (z * z * (z * z)))
    ensures IsRatio(zero, d, k)
  {
    Units(zero);
    hide Modulo, Field;
    var w := z * z * (z * z);
    NotZero(zero, z, z);
    NotZero(zero, z * z, z * z);
    NotZero(zero, 4, f);
    NotZero(zero, 4 * f, w);
    Nonzero(zero, d.z, 4 * f * w);
    QuotientOf(zero, d.x, d.z, s * s, 4 * f, w, k);
  }

  lemma Nonzero(zero: int -> bool, a: int, b: int)
    requires Modulo(zero) && zero(a - b) && !zero(b)
    ensures !zero(a)
  {
    hide Modulo;
    if zero(a) {
      Combine(zero, b, 1, a, -1, a - b);
    }
  }

  lemma QuotientOf(zero: int -> bool, x: int, z: int, m: int, n: int, w: int, k: int)
    requires Modulo(zero) && zero(x - m * w) && zero(z - n * w) && zero(n * k - m)
    ensures zero(x - k * z)
  {
    hide Modulo;
    assert x - k * z - (x - m * w) == -k * (z - n * w) + -w * (n * k - m);
    Combine(zero, x - k * z - (x - m * w), -k, z - n * w, -w, n * k - m);
    Combine(zero, x - k * z, 1, x - k * z - (x - m * w), 1, x - m * w);
  }

  lemma DoubleInfinite(zero: int -> bool, r: Ratio)
    requires Modulo(zero) && Field() && zero(r.z) && !zero(r.x)
    ensures zero(Double(r).z) && !zero(Double(r).x)
  {
    var x, z := r.x, r.z;
    var d := x * x - z * z;
    DoubleModulo(zero, r);
    hide Double, Modulo, Field;
    TimesDenominator(zero, Double(r).z, x, z, x * x + A * z * x + z * z);
    NotZero(zero, x, x);
    if zero(d) {
      Combine(zero, x * x, 1, d, z, z);
    }
    NotZero(zero, d, d);
    Nonzero(zero, Double(r).x, d * d);
  }

  lemma TimesDenominator(zero: int -> bool, e: int, x: int, z: int, k: int)
    requires Modulo(zero) && zero(e - 4 * x * z * k) && zero(z)
    ensures zero(e)
  {
    hide Modulo;
    assert 4 * x * z * k == 4 * x * k * z;
    Combine(zero, e, 1, e - 4 * x * z * k, 4 * x * k, z);
  }

  lemma DiffAddModulo(zero: int -> bool, u: int, r: Ratio, s: Ratio)
    requires Modulo(zero)
    ensures var m, n := r.x * s.x - r.z * s.z, r.x * s.z - r.z * s.x;
      zero(DiffAdd(u, r, s).x - 4 * (m * m)) && zero(DiffAdd(u, r, s).z - 4 * u * (n * n))
  {
    DiffAddIs(u, r, s);
    var m, n := r.x * s.x - r.z * s.z, r.x * s.z - r.z * s.x;
    hide DiffAdd;
    Reduced'(zero, 4 * (m * m));
    Reduced'(zero, 4 * u * (n * n));
  }

  /** What DiffAdd computes from quotients equal to x and x'. */
  lemma DiffAddOfRatios(zero: int -> bool, u: int, r: Ratio, s: Ratio, x: int, x': int)
    requires Modulo(zero) && zero(r.x - x * r.z) && zero(s.x - x' * s.z)
    ensures var a, d, w := x * x' - 1, x' - x, r.z * s.z;
      && zero(DiffAdd(u, r, s).x - 4 * (a * a) * (w * w))
      && zero(DiffAdd(u, r, s).z - 4 * (u * (d * d)) * (w * w))
  {
    DiffAddModulo(zero, u, r, s);
    hide DiffAdd, Modulo;
    var a, d, w := x * x' - 1, x' - x, r.z * s.z;
    var m, n := r.x * s.x - r.z * s.z, r.x * s.z - r.z * s.x;
    var e, e' := r.x - x * r.z, s.x - x' * s.z;
    RatioTerms(r.x, r.z, s.x, s.z, x, x');
    Combine(zero, m - a * w, s.x, e, x * r.z, e');
    Combine(zero, n - -d * w, s.z, e, -r.z, e');
    SquareModulo(zero, DiffAdd(u, r, s).x, m, a, w, 1);
    SquareModulo(zero, DiffAdd(u, r, s).z, n, -d, w, u);
    assert -d * -d == d * d;
    assert u * (d * d) == u * (-d * -d);
  }

  lemma RatioTerms(a: int, c: int, b: int, d: int, x: int, y: int)
    ensures a * b - c * d - (x * y - 1) * (c * d) == b * (a - x * c) + x * c * (b - y * d)
    ensures a * d - c * b - (-(y - x)) * (c * d) == d * (a - x * c) + -c * (b - y * d)
  {
  }

  lemma SquareModulo(zero: int -> bool, e: int, m: int, a: int, w: int, u: int)
    requires Modulo(zero) && zero(e - 4 * u * (m * m)) && zero(m - a * w)
    ensures zero(e - 4 * (u * (a * a)) * (w * w))
  {
    hide Modulo;
    ProductsAgree(zero, m, a * w, m, a * w);
    assert a * w * (a * w) == a * a * (w * w);
    var t := a * a * (w * w);
    assert 4 * (u * (a * a)) * (w * w) == 4 * u * t;
    assert e - 4 * u * t == e - 4 * u * (m * m) + 4 * u * (m * m - t);
    Combine(zero, e - 4 * u * t, 1, e - 4 * u * (m * m), 4 * u, m * m - t);
  }

  /** Differential addition does not mind the order. */
  lemma DiffAddSymmetric(u: int, r: Ratio, s: Ratio)
    ensures DiffAdd(u, r, s) == DiffAdd(u, s, r)
  {
    hide Plus, Minus;
    var da, cb := Times'(Minus(s.x, s.z), Plus(r.x, r.z)), Times'(Plus(s.x, s.z), Minus(r.x, r.z));
    assert Times'(Minus(r.x, r.z), Plus(s.x, s.z)) == cb && Times'(Plus(r.x, r.z), Minus(s.x, s.z)) == da;
    hide Times';
    PlusCommutes(da, cb);
    SquareOfMinus(da, cb);
  }

  lemma PlusCommutes(a: int, b: int)
    ensures Plus(a, b) == Plus(b, a)
  {
  }

  lemma SquareOfMinus(a: int, b: int)
    ensures Times'(Minus(a, b), Minus(a, b)) == Times'(Minus(b, a), Minus(b, a))
  {
    var d, e := Minus(a, b), Minus(b, a);
    if d == 0 {
      Opposite(a, b);
    } else {
      Opposite(a, b);
      SquareOfOpposite(d);
    }
  }

  lemma Opposite(a: int, b: int)
    ensures Minus(b, a) == if Minus(a, b) == 0 then 0 else P - Minus(a, b)
  {
  }

  lemma SquareOfOpposite(d: int)
    ensures (P - d) * (P - d) % P == d * d % P
  {
    var p := P;
    assert (p - d) * (p - d) == d * d + (p - 2 * d) * p;
    ByMultiple((p - d) * (p - d), d * d, -(p - 2 * d));
    FieldBytes.SameRemainder((p - d) * (p - d), d * d);
  }

  /** One of the two points is infinite, and the other the difference. */
  lemma DiffAddInfinite(zero: int -> bool, u: int, r: Ratio, s: Ratio)
    requires Modulo(zero) && Field() && !zero(u) && zero(r.z) && !zero(r.x) && IsRatio(zero, s, u)
    ensures IsRatio(zero, DiffAdd(u, r, s), u)
  {
    DiffAddModulo(zero, u, r, s);
    hide DiffAdd, Modulo, Field;
    var d, m, n := DiffAdd(u, r, s), r.x * s.x - r.z * s.z, r.x * s.z - r.z * s.x;
    InfiniteTerms(u, r.x, r.z, s.x, s.z);
    Combine(zero, m - u * n, r.x, s.x - u * s.z, u * s.x - s.z, r.z);
    Combine(zero, n - r.x * s.z, -s.x, r.z, 0, r.z);
    NotZero(zero, r.x, s.z);
    Nonzero(zero, n, r.x * s.z);
    SquaresRatio(zero, d, u, m, n);
  }

  lemma SquaresRatio(zero: int -> bool, d: Ratio, u: int, m: int, n: int)
    requires Modulo(zero) && Field() && !zero(u) && !zero(n) && zero(m - u * n)
    requires zero(d.x - 4 * (m * m)) && zero(d.z - 4 * u * (n * n))
    ensures IsRatio(zero, d, u)
  {
    Units(zero);
    hide Modulo, Field;
    NotZero(zero, n, n);
    NotZero(zero, 4, u);
    NotZero(zero, 4 * u, n * n);
    Nonzero(zero, d.z, 4 * u * (n * n));
    ProductsAgree(zero, m, u * n, m, u * n);
    SquaredTerms(d.x, d.z, u, m, n);
    var e := m * m - u * n * (u * n);
    Combine(zero, d.x - u * d.z - 4 * e, 1, d.x - 4 * (m * m), -u, d.z - 4 * u * (n * n));
    Combine(zero, d.x - u * d.z, 1, d.x - u * d.z - 4 * e, 4, e);
  }

  lemma InfiniteTerms(u: int, x: int, z: int, x': int, z': int)
    ensures x * x' - z * z' - u * (x * z' - z * x') == x * (x' - u * z') + (u * x' - z') * z
  {
  }

  lemma SquaredTerms(x: int, z: int, u: int, m: int, n: int)
    ensures x - u * z - 4 * (m * m - u * n * (u * n)) == x - 4 * (m * m) + -u * (z - 4 * u * (n * n))
  {
    assert u * n * (u * n) == u * (u * (n * n));
  }

  /** Two finite points with different first coordinates, u and v those of their difference and sum. */
  lemma DiffAddChord(zero: int -> bool, u: int, r: Ratio, s: Ratio, p: Point, q: Point, v: int)
    requires Modulo(zero) && Field() && !zero(u) && p.Finite? && q.Finite? && !zero(q.x - p.x)
    requires IsRatio(zero, r, p.x) && IsRatio(zero, s, q.x)
    requires var d, a := q.x - p.x, p.x * q.x; zero(u * v * (d * d) - (a - 1) * (a - 1))
    ensures IsRatio(zero, DiffAdd(u, r, s), v)
  {
    DiffAddOfRatios(zero, u, r, s, p.x, q.x);
    Units(zero);
    hide DiffAdd, Modulo, Field;
    var e, a, d, w := DiffAdd(u, r, s), p.x * q.x - 1, q.x - p.x, r.z * s.z;
    NotZero(zero, r.z, s.z);
    NotZero(zero, w, w);
    NotZero(zero, d, d);
    NotZero(zero, u, d * d);
    NotZero(zero, 4, u * (d * d));
    NotZero(zero, 4 * (u * (d * d)), w * w);
    Nonzero(zero, e.z, 4 * (u * (d * d)) * (w * w));
    FourTimesZero(zero, u, v, d * d, a * a);
    QuotientOf(zero, e.x, e.z, 4 * (a * a), 4 * (u * (d * d)), w * w, v);
  }

  lemma FourTimesZero(zero: int -> bool, u: int, v: int, dd: int, aa: int)
    requires Modulo(zero) && zero(u * v * dd - aa)
    ensures zero(4 * (u * dd) * v - 4 * aa)
  {
    hide Modulo;
    assert 4 * (u * dd) * v == 4 * (u * v * dd);
    Combine(zero, 4 * (u * dd) * v - 4 * aa, 4, u * v * dd - aa, 0, u * v * dd - aa);
  }

  /** Two opposite points: the sum is infinite, and the difference twice the second. */
  lemma DiffAddOpposite(zero: int -> bool, u: int, r: Ratio, s: Ratio, x: int)
    requires Modulo(zero) && Field() && !zero(u) && IsRatio(zero, r, x) && IsRatio(zero, s, x) && !zero(x * x - 1)
    ensures zero(DiffAdd(u, r, s).z) && !zero(DiffAdd(u, r, s).x)
  {
    DiffAddOfRatios(zero, u, r, s, x, x);
    Units(zero);
    hide DiffAdd, Modulo, Field;
    var a, w := x * x - 1, r.z * s.z;
    assert 4 * (u * (0 * 0)) * (w * w) == 0;
    NotZero(zero, r.z, s.z);
    NotZero(zero, w, w);
    NotZero(zero, a, a);
    NotZero(zero, 4, a * a);
    NotZero(zero, 4 * (a * a), w * w);
    Nonzero(zero, DiffAdd(u, r, s).x, 4 * (a * a) * (w * w));
  }

  /** Points on the curve with the same first coordinate are equal or opposite. */
  lemma SameOrOpposite(zero: int -> bool, p: Point, q: Point)
    requires Modulo(zero) && Field() && p.Finite? && q.Finite? && OnCurve(zero, p) && OnCurve(zero, q) && p.x == q.x
    ensures p == q || zero(p.y + q.y)
  {
    var y, y', f := p.y, q.y, Cubic(p.x);
    assert (y - y') * (y + y') == y * y - f - (y' * y' - f);
    if p.y != q.y {
      DifferentResidues(zero, p.y, q.y);
      hide Modulo, Field, Cubic;
      Combine(zero, (y - y') * (y + y'), 1, y * y - f, -1, y' * y' - f);
      DivideOut(zero, y - y', y + y');
    }
  }

  lemma DifferentResidues(zero: int -> bool, a: int, b: int)
    requires Modulo(zero) && 0 <= a < P && 0 <= b < P && a != b
    ensures !zero(a - b)
  {
    Same(a, b);
  }

  /** The opposite point is the one with the same first and the opposite second coordinate. */
  lemma OppositeOf(zero: int -> bool, p: Point, n: Point)
    requires Modulo(zero) && IsSum(zero, p, n, Infinite) && p.Finite?
    ensures n.Finite? && n.x == p.x && zero(p.y + n.y)
  {
    hide Modulo;
  }

  /** DiffAdd adds points: p and q with the difference w, of first coordinate u, and the sum t. */
  lemma DiffAddStands(zero: int -> bool, u: int, r: Ratio, s: Ratio, p: Point, q: Point, n: Point, w: Point, t: Point)
    requires Modulo(zero) && Field() && OnCurve(zero, p) && OnCurve(zero, q) && OnCurve(zero, n)
    requires w.Finite? && w.x == u && !zero(u) && Stands(zero, r, p) && Stands(zero, s, q)
    requires IsSum(zero, p, w, q) && IsSum(zero, p, n, Infinite) && IsSum(zero, q, n, w) && IsSum(zero, p, q, t)
    ensures Stands(zero, DiffAdd(u, r, s), t)
  {
    hide Field, Modulo, DiffAdd, OnCurve, OnLine, IsRatio;
    if p == Infinite {
      DiffAddInfinite(zero, u, r, s);
    } else if q == Infinite {
      OppositeOf(zero, p, n);
      DiffAddSymmetric(u, r, s);
      DiffAddInfinite(zero, u, s, r);
    } else if p.x == q.x {
      OppositeOf(zero, p, n);
      SameOrOpposite(zero, p, q);
      TwiceIs(zero, p, q, n, w);
      DiffAddOpposite(zero, u, r, s, p.x);
    } else {
      OppositeOf(zero, p, n);
      SumAndDifference(zero, p, q, n, w, t);
      DiffAddChord(zero, u, r, s, p, q, t.x);
    }
  }

  lemma TwiceIs(zero: int -> bool, p: Point, q: Point, n: Point, w: Point)
    requires Modulo(zero) && Field() && p.Finite? && q.Finite? && n.Finite? && w.Finite? && !zero(w.x)
    requires OnCurve(zero, p) && OnCurve(zero, q) && OnCurve(zero, n)
    requires p.x == q.x == n.x && zero(p.y + q.y) && zero(p.y + n.y)
    requires IsSum(zero, q, n, w)
    ensures !zero(p.x * p.x - 1)
  {
    assert n == q by {
      if n.y != q.y {
        DifferentResidues(zero, n.y, q.y);
        hide Modulo;
        Combine(zero, n.y - q.y, 1, p.y + n.y, -1, p.y + q.y);
      }
    }
    CubicZero(zero, q);
    var f, e, x := Cubic(q.x), q.x * q.x - 1, w.x;
    Units(zero);
    hide Modulo, Field, Cubic;
    var l :| OnLine(zero, q, q, w, l);
    TangentCoordinate(zero, q, w, l);
    if zero(e) {
      Combine(zero, 4 * f * x, 1, 4 * f * x - e * e, e, e);
      NotZero(zero, 4, f);
      NotZero(zero, 4 * f, x);
    }
  }

  lemma SumAndDifference(zero: int -> bool, p: Point, q: Point, n: Point, w: Point, t: Point)
    requires Modulo(zero) && Field() && p.Finite? && q.Finite? && n.Finite? && w.Finite?
    requires p.x != q.x && n.x == p.x && zero(p.y + n.y)
    requires OnCurve(zero, p) && OnCurve(zero, q) && IsSum(zero, q, n, w) && IsSum(zero, p, q, t)
    ensures t.Finite? && !zero(q.x - p.x)
    ensures var d, a := q.x - p.x, p.x * q.x; zero(w.x * t.x * (d * d) - (a - 1) * (a - 1))
  {
    DifferentResidues(zero, q.x, p.x);
    hide Field, Modulo, Cubic;
    var l :| OnLine(zero, p, q, t, l);
    var k :| OnLine(zero, q, n, w, k);
    ChordCoordinate(zero, p, q, t, l);
    ChordCoordinate(zero, q, n, w, k);
    assert n.x - q.x == -(q.x - p.x);
    Reflected(zero, q.x - p.x, A + p.x + q.x, n.y - q.y, q.y + p.y, w.x);
    CoordinateProduct(zero, p, q, t.x, w.x);
  }

  lemma Reflected(zero: int -> bool, d: int, c: int, m: int, y: int, x: int)
    requires Modulo(zero) && zero(m + y) && zero(x * (-d * -d) - (m * m - c * (-d * -d)))
    ensures zero(x * (d * d) - (y * y - c * (d * d)))
  {
    assert -d * -d == d * d;
    var e := x * (d * d) - (m * m - c * (d * d));
    DifferenceOfSquares(m, y);
    hide Modulo;
    Combine(zero, x * (d * d) - (y * y - c * (d * d)), 1, e, m - y, m + y);
  }

  // ------------------------------------------------------------ keys and coordinates

  /** The coordinate the code works with, 0 for the point at infinity. */
  function Coordinate(p: Point): int {
    match p
    case Infinite => 0
    case Finite(x, _) => x
  }

  /** The coordinate of a key times 1 - y is 1 + y, y its low 255 bits, when 1 - y has its inverse. */
  lemma KeyEquation(key: seq<Byte>)
    requires var d := (1 - BytesValue(key) % Pow2(255)) % P; Times'(d, Inverse(d)) == 1
    ensures var y := BytesValue(key) % Pow2(255);
      FromKey(key) * (1 - y) % P == (1 + y) % P
  {
    FieldBytes.ModulusIs();
    hide BytesValue, Pow2, Inverse;
    var y := BytesValue(key) % (P + 19);
    var d := (1 - y) % P;
    MinusOf(1, y);
    PlusOf(y, 1);
    OneIsReduced();
    QuotientTimes(FromKey(key), y + 1, Inverse(d), 1 - y);
  }

  lemma Remainder(a: int)
    ensures a % P % P == a % P
  {
  }

  lemma OneIsReduced()
    ensures 1 % P == 1
  {
  }

  lemma QuotientTimes(k: int, n: int, i: int, d: int)
    requires k == Times'(n % P, i) && Times'(d % P, i) == 1
    ensures k * d % P == n % P
  {
    ReducedProduct(n, i);
    ReducedProduct(d, i);
    Same(n * i, k);
    Same(d * i, 1);
    assert Zero(n * i - k);
    assert Zero(d * i - 1);
    hide Zero;
    assert k * d - n == -d * (n * i - k) + n * (d * i - 1);
    CombineMultiples(k * d - n, -d, n * i - k, n, d * i - 1);
    Same(k * d, n);
  }

  lemma ReducedProduct(a: int, b: int)
    ensures Times'(a % P, b) == a * b % P && a * b % P == a * b % P % P
  {
    Same(a % P * b, a * b);
    MultipleIsZero(a % P * b - a * b, -(a / P) * b);
    Remainder(a * b);
  }

  /** key spells the second coordinate y of the twisted Edwards form of p: x (1 - y) = 1 + y; y = 1 at infinity. */
  ghost predicate Spells(zero: int -> bool, key: seq<Byte>, p: Point) {
    var y := BytesValue(key) % Pow2(255);
    match p
    case Infinite => zero(y - 1)
    case Finite(x, _) => zero(x * (1 - y) - (1 + y))
  }

  /** The first coordinate computed from a key is that of its point. */
  lemma KeyIs(zero: int -> bool, key: seq<Byte>, p: Point)
    requires Modulo(zero) && Field() && OnCurve(zero, p) && Spells(zero, key, p)
    ensures FromKey(key) == Coordinate(p)
  {
    FieldBytes.ModulusIs();
    hide BytesValue, Pow2, Inverse, Field, Cubic;
    var y := BytesValue(key) % Pow2(255);
    match p {
      case Infinite =>
        assert Zero(y - 1);
        KeyInfinite(key);
      case Finite(x, _) =>
        NoUnit(zero, x, y);
        InverseIs((1 - y) % P);
        KeyEquation(key);
        KeyReduced(key);
        hide FromKey;
        SameQuotients(zero, FromKey(key), x, 1 - y, 1 + y);
    }
  }

  lemma SameQuotients(zero: int -> bool, k: int, x: int, d: int, n: int)
    requires Modulo(zero) && Field() && 0 <= k < P && 0 <= x < P && !zero(d) && k * d % P == n % P && zero(x * d - n)
    ensures k == x
  {
    Same(k * d, n);
    if k != x {
      DifferentResidues(zero, k, x);
      hide Modulo, Field;
      assert d * (k - x) == k * d - n - (x * d - n);
      Combine(zero, d * (k - x), 1, k * d - n, -1, x * d - n);
      DivideOut(zero, d, k - x);
    }
  }

  lemma KeyInfinite(key: seq<Byte>)
    requires Zero(BytesValue(key) % (P + 19) - 1)
    ensures FromKey(key) == 0
  {
    hide BytesValue, Inverse;
    var y := BytesValue(key) % (P + 19);
    Opposites(y);
    MinusOf(1, y);
    OneIsReduced();
    ZeroInverse(0);
    TimesZero(Plus(y % P, 1));
  }

  lemma TimesZero(a: int)
    ensures Times'(a, 0) == 0
  {
  }

  lemma Opposites(y: int)
    requires Zero(y - 1)
    ensures (1 - y) % P == 0
  {
    MultipleIsZero(1 - y, -((y - 1) / P));
  }

  lemma KeyReduced(key: seq<Byte>)
    ensures 0 <= FromKey(key) < P
  {
  }

  /** No point has a key with y = 1 but the one at infinity. */
  lemma NoUnit(zero: int -> bool, x: int, y: int)
    requires Modulo(zero) && zero(x * (1 - y) - (1 + y))
    ensures !zero(1 - y) && !Zero((1 - y) % P)
  {
    Units(zero);
    Remainder(1 - y);
    assert Zero(1 - y) <==> Zero((1 - y) % P);
    hide Modulo;
    if zero(1 - y) {
      assert 2 == -1 * (x * (1 - y) - (1 + y)) + (x + 1) * (1 - y);
      Combine(zero, 2, -1, x * (1 - y) - (1 + y), x + 1, 1 - y);
    }
  }

  lemma ZeroInverse(z: int)
    requires Zero(z)
    ensures Inverse(z) == 0
  {
    var e := Exp(z, P - 3);
    assert Exp(z, P - 2) == z * e;
    hide Exp;
    CombineMultiples(z * e, e, z, 0, z);
  }

  /** The quotient the code computes in the end. */
  lemma AffineIs(zero: int -> bool, r: Ratio, p: Point)
    requires Modulo(zero) && Field() && OnCurve(zero, p) && Stands(zero, r, p)
    ensures Affine(r) == Coordinate(p)
  {
    hide Inverse, Field, Cubic;
    match p {
      case Infinite =>
        assert Zero(r.z);
        ZeroInverse(r.z);
        TimesZero(r.x);
      case Finite(x, _) =>
        var i := Inverse(r.z);
        assert !Zero(r.z);
        InverseIs(r.z);
        OneLess(zero, r.z * i);
        QuotientIsAffine(zero, r.x, r.z, i, x);
    }
  }

  lemma QuotientIsAffine(zero: int -> bool, x: int, z: int, i: int, k: int)
    requires Modulo(zero) && zero(z * i - 1) && zero(x - k * z) && 0 <= k < P
    ensures Times'(x, i) == k
  {
    var e := x * i - k;
    assert e == i * (x - k * z) + k * (z * i - 1);
    Combine(zero, e, i, x - k * z, k, z * i - 1);
    assert Zero(e);
    Same(x * i, k);
  }
}
