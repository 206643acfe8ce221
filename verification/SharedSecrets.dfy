/** What the secrets of Externals/ed25519/key_exchange.c mean on the curve: the ladder climbs from point to
    point, its result is the coordinate of a multiple of the other side's point, and two key pairs agree. */
module SharedSecrets {
  import opened Radix
  import opened AbelianGroups
  import opened ScalarField
  import opened Ed25519
  import opened Ladder
  import opened Montgomery
  import opened ScalarMult
  import FieldElement
  import FieldBytes
  import FieldPowers

  /** Where the elements of the group lie on the curve, and which numbers count as zero. */
  datatype Line<!T> = Line(at: T -> Point, zero: int -> bool)

  ghost predicate Adds<T(!new)>(c: Curve<T>, l: Line<T>, p: T, q: T) {
    IsSum(l.zero, l.at(p), l.at(q), l.at(c.group.add(p, q)))
  }

  /** What is taken as given of the curve: P is prime, the group is that of the points of
      y^2 = x^3 + 486662 x^2 + x under chord and tangent, and keys spell points. */
  ghost predicate LineAssumed<T(!new)>(c: Curve<T>, l: Line<T>) {
    && Modulo(l.zero) && Field()
    && (forall p :: OnCurve(l.zero, l.at(p)) && Spells(l.zero, c.encode(p), l.at(p)))
    && (forall p :: l.at(p) == Infinite <==> p == c.group.zero)
    && (forall p, q :: Adds(c, l, p, q))
  }

  /** The order of the base point, RFC 8032, section 5.1. */
  lemma OrderIs()
    ensures L == Pow2(252) + 27742317777372353535851937790883648493
  {
    FieldBytes.ModulusIs();
    hide Pow2;
    Pow2Add(3, 252);
    SmallPow2(3);
  }

  lemma PointIs<T(!new)>(c: Curve<T>, l: Line<T>, p: T)
    requires LineAssumed(c, l)
    ensures Modulo(l.zero) && Field() && OnCurve(l.zero, l.at(p)) && Spells(l.zero, c.encode(p), l.at(p))
    ensures l.at(p) == Infinite <==> p == c.group.zero
  {
    hide Field, Modulo, OnCurve, Spells, IsSum;
  }

  lemma SumIs<T(!new)>(c: Curve<T>, l: Line<T>, p: T, q: T)
    requires LineAssumed(c, l)
    ensures IsSum(l.zero, l.at(p), l.at(q), l.at(c.group.add(p, q)))
  {
    hide Field, Modulo, OnCurve, Spells, IsSum;
    assert Adds(c, l, p, q);
  }

  /** The first coordinate a key is turned into is that of its point. */
  lemma KeyOf<T(!new)>(c: Curve<T>, l: Line<T>, Q: T)
    requires LineAssumed(c, l)
    ensures FromKey(c.encode(Q)) == Coordinate(l.at(Q))
  {
    PointIs(c, l, Q);
    hide LineAssumed;
    KeyIs(l.zero, c.encode(Q), l.at(Q));
  }

  // ------------------------------------------------------------------- the ladder

  /** A step up the ladder keeps its ratios those of m Q and (m+1) Q. */
  lemma LadderStep<T(!new)>(c: Curve<T>, l: Line<T>, Q: T, m: int, r: (Ratio, Ratio), bit: int)
    requires Laws(c.group) && LineAssumed(c, l) && Coordinate(l.at(Q)) != 0 && 0 <= bit <= 1
    requires Stands(l.zero, r.0, l.at(Mul(c.group, m, Q))) && Stands(l.zero, r.1, l.at(Mul(c.group, m + 1, Q)))
    ensures var s := Climb(Coordinate(l.at(Q)), r, bit);
            && Stands(l.zero, s.0, l.at(Mul(c.group, 2 * m + bit, Q)))
            && Stands(l.zero, s.1, l.at(Mul(c.group, 2 * m + bit + 1, Q)))
  {
    hide Laws, Mul, LineAssumed, Double, DiffAdd, Stands, Coordinate;
    var g := c.group;
    var p, q := Mul(g, m, Q), Mul(g, m + 1, Q);
    MulStep(g, m, Q);
    MulAdd(g, m, m, Q);
    MulAdd(g, m, m + 1, Q);
    MulAdd(g, m + 1, m + 1, Q);
    DiffAddSymmetric(Coordinate(l.at(Q)), r.0, r.1);
    NextPoints(c, l, Q, p, r.0, r.1);
    if bit == 0 {
      TwicePoint(c, l, p, r.0);
    } else {
      TwicePoint(c, l, q, r.1);
    }
  }

  lemma TwicePoint<T(!new)>(c: Curve<T>, l: Line<T>, p: T, r: Ratio)
    requires LineAssumed(c, l) && Stands(l.zero, r, l.at(p))
    ensures Stands(l.zero, Double(r), l.at(c.group.add(p, p)))
  {
    PointIs(c, l, p);
    SumIs(c, l, p, p);
    hide LineAssumed;
    DoubleStands(l.zero, r, l.at(p), l.at(c.group.add(p, p)));
  }

  /** p and p + Q, whose difference is Q, added. */
  lemma NextPoints<T(!new)>(c: Curve<T>, l: Line<T>, Q: T, p: T, r: Ratio, s: Ratio)
    requires Laws(c.group) && LineAssumed(c, l) && Coordinate(l.at(Q)) != 0
    requires Stands(l.zero, r, l.at(p)) && Stands(l.zero, s, l.at(c.group.add(p, Q)))
    ensures Stands(l.zero, DiffAdd(Coordinate(l.at(Q)), r, s), l.at(c.group.add(p, c.group.add(p, Q))))
  {
    hide LineAssumed, Laws, Stands, Field, Modulo, IsSum, OnCurve, Spells, DiffAdd, Coordinate;
    var g := c.group;
    var q, n := g.add(p, Q), g.neg(p);
    PointIs(c, l, p);
    PointIs(c, l, q);
    PointIs(c, l, n);
    PointIs(c, l, Q);
    PointIs(c, l, g.zero);
    SumIs(c, l, p, Q);
    SumIs(c, l, p, n);
    SumIs(c, l, q, n);
    SumIs(c, l, p, q);
    Differs(g, p, Q);
    NonzeroCoordinate(l.zero, l.at(Q));
    DiffAddStands(l.zero, Coordinate(l.at(Q)), r, s, l.at(p), l.at(q), l.at(n), l.at(Q), l.at(g.add(p, q)));
  }

  lemma NonzeroCoordinate(zero: int -> bool, p: Point)
    requires Modulo(zero) && OnCurve(zero, p) && Coordinate(p) != 0
    ensures p.Finite? && p.x == Coordinate(p) && !zero(p.x)
  {
    DifferentResidues(zero, p.x, 0);
  }

  lemma Differs<T(!new)>(g: Group<T>, p: T, Q: T)
    requires Laws(g)
    ensures g.add(p, g.neg(p)) == g.zero && g.add(g.add(p, Q), g.neg(p)) == Q
  {
    hide Laws;
    AbelianGroups.Inverse(g, p);
    Comm(g, p, Q);
    Cancel(g, Q, p);
  }

  /** The whole ladder. */
  lemma {:induction false} LadderStands<T(!new)>(c: Curve<T>, l: Line<T>, Q: T, v: nat, n: nat)
    requires Laws(c.group) && LineAssumed(c, l) && Coordinate(l.at(Q)) != 0 && v < Pow2(n)
    ensures Stands(l.zero, Rung(Coordinate(l.at(Q)), v, n).0, l.at(Mul(c.group, v, Q)))
    ensures Stands(l.zero, Rung(Coordinate(l.at(Q)), v, n).1, l.at(Mul(c.group, v + 1, Q)))
  {
    hide Laws, LineAssumed, Double, DiffAdd, Stands, Coordinate;
    if n == 0 {
      FirstRung(c, l, Q);
      MulOne(c.group, Q);
    } else {
      hide Mul;
      LadderStands(c, l, Q, v / 2, n - 1);
      LadderStep(c, l, Q, v / 2, Rung(Coordinate(l.at(Q)), v / 2, n - 1), v % 2);
    }
  }

  lemma FirstRung<T(!new)>(c: Curve<T>, l: Line<T>, Q: T)
    requires LineAssumed(c, l) && Coordinate(l.at(Q)) != 0
    ensures Stands(l.zero, Ratio(1, 0), l.at(c.group.zero)) && Stands(l.zero, Ratio(Coordinate(l.at(Q)), 1), l.at(Q))
  {
    PointIs(c, l, Q);
    PointIs(c, l, c.group.zero);
    assert Zero(0) && !Zero(1);
  }

  // ------------------------------------------------------------ keys of coordinate 0

  /** A key of coordinate 0 makes every denominator 0. */
  lemma {:induction false} ZeroKey(v: nat, n: nat)
    requires n > 0
    ensures Rung(0, v, n).0.z == 0 && Rung(0, v, n).1.z == 0
  {
    hide Double, DiffAdd;
    var r := Rung(0, v / 2, n - 1);
    if n == 1 {
      ZeroStart();
    } else {
      ZeroKey(v / 2, n - 1);
      ZeroDouble(r.0);
      ZeroDouble(r.1);
    }
    ZeroSum(r.0, r.1);
    ZeroSum(r.1, r.0);
  }

  lemma ZeroStart()
    ensures Double(Ratio(1, 0)).z == 0 && Double(Ratio(0, 1)).z == 0
  {
    ZeroDouble(Ratio(1, 0));
    SquareOfMinus(0, 1);
    assert Minus(1, 0) == 1 && Plus(0, 1) == 1;
  }

  lemma ZeroSum(r: Ratio, s: Ratio)
    ensures DiffAdd(0, r, s).z == 0
  {
    hide Plus, Minus;
  }

  lemma ZeroDouble(r: Ratio)
    requires r.z == 0
    ensures Double(r).z == 0
  {
    assert Minus(r.x, 0) == Plus(r.x, 0);
  }

  /** Without a denominator the quotient is 0. */
  lemma ZeroAffine(r: Ratio)
    requires r.z == 0
    ensures Affine(r) == 0
  {
    assert FieldPowers.Exp(0, FieldElement.P - 2) == 0 * FieldPowers.Exp(0, FieldElement.P - 3);
  }

  // ---------------------------------------------------------------- shared secrets

  /** For even v the secret is the first coordinate of v Q, 0 if that is the identity. */
  lemma SecretIs<T(!new)>(c: Curve<T>, l: Line<T>, Q: T, v: nat)
    requires Laws(c.group) && LineAssumed(c, l) && v % 2 == 0 && v < Pow2(255)
    ensures Secret(FromKey(c.encode(Q)), v) == Coordinate(l.at(Mul(c.group, v, Q)))
  {
    hide Laws, LineAssumed, FromKey, Pow2, Rung, Mul, Stands;
    KeyOf(c, l, Q);
    var R := Mul(c.group, v, Q);
    PointIs(c, l, R);
    if Coordinate(l.at(Q)) == 0 {
      ZeroKey(v, 255);
      ZeroAffine(Rung(0, v, 255).0);
      OfOrderTwo(c, l, Q);
      Vanishes(c.group, Q, v);
    } else {
      LadderStands(c, l, Q, v, 255);
      AffineIs(l.zero, Rung(Coordinate(l.at(Q)), v, 255).0, l.at(R));
    }
  }

  /** A point of coordinate 0 is its own opposite. */
  lemma OfOrderTwo<T(!new)>(c: Curve<T>, l: Line<T>, Q: T)
    requires Laws(c.group) && LineAssumed(c, l) && Coordinate(l.at(Q)) == 0
    ensures c.group.add(Q, Q) == c.group.zero
  {
    hide Laws, LineAssumed, Field, Modulo, OnCurve, Spells, OnLine;
    var g := c.group;
    PointIs(c, l, Q);
    PointIs(c, l, g.add(Q, Q));
    SumIs(c, l, Q, Q);
    Unit(g, Q);
    if l.at(Q).Finite? {
      CubicZero(l.zero, l.at(Q));
      CubicOfZero(l.zero);
    }
  }

  lemma CubicOfZero(zero: int -> bool)
    requires Modulo(zero)
    ensures zero(Cubic(0))
  {
    assert Zero(Cubic(0));
  }

  lemma Vanishes<T(!new)>(g: Group<T>, Q: T, v: nat)
    requires Laws(g) && g.add(Q, Q) == g.zero && v % 2 == 0
    ensures Mul(g, v, Q) == g.zero
  {
    hide Laws, Mul;
    MulAdd(g, 1, 1, Q);
    MulOne(g, Q);
    MulMul(g, v / 2, 2, Q);
    MulZero(g, v / 2);
    assert v / 2 * 2 == v;
  }

  /** Two key pairs derive the same 32 bytes: the first coordinate of a (a' B), a and a' the two
      scalars. */
  lemma ExchangeAgrees<T(!new)>(c: Curve<T>, l: Line<T>, seed: seq<Byte>, pk: seq<Byte>, sk: seq<Byte>,
                                seed': seq<Byte>, pk': seq<Byte>, sk': seq<Byte>, s: seq<Byte>, s': seq<Byte>)
    requires Assumed(c) && LineAssumed(c, l)
    requires IsKeyPair(c, seed, pk, sk) && IsKeyPair(c, seed', pk', sk')
    requires |sk| == |sk'| == 64 && |s| == |s'| == 32
    requires BytesValue(s) == Secret(FromKey(pk'), Scalar(Clamp(sk)))
    requires BytesValue(s') == Secret(FromKey(pk), Scalar(Clamp(sk')))
    ensures s == s' && BytesValue(s) == Coordinate(l.at(Mul(c.group, Scalar(sk), Mul(c.group, Scalar(sk'), c.B))))
  {
    hide Assumed, LineAssumed, IsKeyPair, Laws, Mul, BytesValue, Clamp, FromKey, Secret, Coordinate, Pow2;
    KeyPairFacts(c, seed, pk, sk);
    KeyPairFacts(c, seed', pk', sk');
    GroupFacts(c);
    var g, a, a' := c.group, Scalar(sk), Scalar(sk');
    ClampedScalar(sk);
    ClampedScalar(sk');
    EvenScalar(a);
    EvenScalar(a');
    SecretIs(c, l, Mul(g, a', c.B), a);
    SecretIs(c, l, Mul(g, a, c.B), a');
    MulMul(g, a, a', c.B);
    MulMul(g, a', a, c.B);
    assert a * a' == a' * a;
    BytesValueInjective(s, s');
  }

  lemma EvenScalar(a: nat)
    requires a % 8 == 0
    ensures a % 2 == 0
  {
    QuotientIs(a, 2, 4 * (a / 8), 0);
  }

  lemma KeyPairFacts<T(!new)>(c: Curve<T>, seed: seq<Byte>, pk: seq<Byte>, sk: seq<Byte>)
    requires Assumed(c) && IsKeyPair(c, seed, pk, sk)
    ensures |sk| == 64 && Clamp(sk) == sk && pk == c.encode(Mul(c.group, Scalar(sk), c.B))
  {
    hide BytesValue, Laws, Mul, BaseTable, OddMultiples, Pow2;
    ClampAgain(c.hash(seed));
  }
}
