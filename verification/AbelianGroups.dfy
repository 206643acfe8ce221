/** A commutative group given by its operations, standing for the curve group, and integer
    multiples of its elements. */
module AbelianGroups {

  datatype Group<!P> = Group(zero: P, add: (P, P) -> P, neg: P -> P)

  ghost predicate Laws<P(!new)>(g: Group<P>) {
    && (forall x, y, z :: g.add(g.add(x, y), z) == g.add(x, g.add(y, z)))
    && (forall x, y :: g.add(x, y) == g.add(y, x))
    && (forall x :: g.add(x, g.zero) == x)
    && (forall x :: g.add(x, g.neg(x)) == g.zero)
  }

  /** n p. */
  ghost function Mul<P>(g: Group<P>, n: int, p: P): P
    decreases if n < 0 then -n else n
  {
    if n == 0 then g.zero
    else if n > 0 then g.add(Mul(g, n - 1, p), p)
    else g.add(Mul(g, n + 1, p), g.neg(p))
  }

  // The laws one instance at a time; proofs below use these and hide the quantified form.

  lemma Assoc<P(!new)>(g: Group<P>, x: P, y: P, z: P)
    requires Laws(g)
    ensures g.add(g.add(x, y), z) == g.add(x, g.add(y, z))
  {
  }

  lemma Comm<P(!new)>(g: Group<P>, x: P, y: P)
    requires Laws(g)
    ensures g.add(x, y) == g.add(y, x)
  {
  }

  lemma Unit<P(!new)>(g: Group<P>, x: P)
    requires Laws(g)
    ensures g.add(x, g.zero) == x && g.add(g.zero, x) == x
  {
    assert g.add(g.zero, x) == g.add(x, g.zero);
  }

  lemma Inverse<P(!new)>(g: Group<P>, x: P)
    requires Laws(g)
    ensures g.add(x, g.neg(x)) == g.zero && g.add(g.neg(x), x) == g.zero
  {
    assert g.add(g.neg(x), x) == g.add(x, g.neg(x));
  }

  lemma Cancel<P(!new)>(g: Group<P>, x: P, y: P)
    requires Laws(g)
    ensures g.add(g.add(x, y), g.neg(y)) == x
    ensures g.add(g.add(x, g.neg(y)), y) == x
  {
    hide Laws;
    Assoc(g, x, y, g.neg(y));
    Assoc(g, x, g.neg(y), y);
    Inverse(g, y);
    Unit(g, x);
  }

  lemma MulStep<P(!new)>(g: Group<P>, n: int, p: P)
    requires Laws(g)
    ensures Mul(g, n + 1, p) == g.add(Mul(g, n, p), p)
    ensures Mul(g, n - 1, p) == g.add(Mul(g, n, p), g.neg(p))
  {
    hide Laws;
    Cancel(g, Mul(g, n + 1, p), p);
    Cancel(g, Mul(g, n - 1, p), p);
  }

  lemma {:induction false} MulAdd<P(!new)>(g: Group<P>, m: int, n: int, p: P)
    requires Laws(g)
    ensures Mul(g, m + n, p) == g.add(Mul(g, m, p), Mul(g, n, p))
    decreases if n < 0 then -n else n
  {
    hide Laws;
    var x := Mul(g, m, p);
    if n > 0 {
      MulAdd(g, m, n - 1, p);
      MulStep(g, m + n - 1, p);
      Assoc(g, x, Mul(g, n - 1, p), p);
    } else if n < 0 {
      MulAdd(g, m, n + 1, p);
      MulStep(g, m + n + 1, p);
      Assoc(g, x, Mul(g, n + 1, p), g.neg(p));
    } else {
      Unit(g, x);
    }
  }

  lemma NegUnique<P(!new)>(g: Group<P>, x: P, y: P)
    requires Laws(g) && g.add(x, y) == g.zero
    ensures y == g.neg(x)
  {
    hide Laws;
    Assoc(g, g.neg(x), x, y);
    Inverse(g, x);
    Unit(g, y);
    Unit(g, g.neg(x));
  }

  lemma MulNeg<P(!new)>(g: Group<P>, n: int, p: P)
    requires Laws(g)
    ensures Mul(g, -n, p) == g.neg(Mul(g, n, p))
  {
    hide Laws;
    MulAdd(g, n, -n, p);
    NegUnique(g, Mul(g, n, p), Mul(g, -n, p));
  }

  lemma {:induction false} MulMul<P(!new)>(g: Group<P>, m: int, n: int, p: P)
    requires Laws(g)
    ensures Mul(g, m, Mul(g, n, p)) == Mul(g, m * n, p)
    decreases if m < 0 then -m else m
  {
    hide Laws;
    if m > 0 {
      MulMul(g, m - 1, n, p);
      MulAdd(g, (m - 1) * n, n, p);
      assert (m - 1) * n + n == m * n;
    } else if m < 0 {
      MulMul(g, m + 1, n, p);
      MulNeg(g, n, p);
      MulAdd(g, (m + 1) * n, -n, p);
      assert (m + 1) * n + -n == m * n;
    }
  }

  lemma MulOne<P(!new)>(g: Group<P>, p: P)
    requires Laws(g)
    ensures Mul(g, 1, p) == p && Mul(g, -1, p) == g.neg(p)
  {
    hide Laws;
    Unit(g, p);
    MulNeg(g, 1, p);
  }

  lemma MulOfNegated<P(!new)>(g: Group<P>, n: int, p: P)
    requires Laws(g)
    ensures Mul(g, n, g.neg(p)) == Mul(g, -n, p)
  {
    hide Laws, Mul;
    MulOne(g, p);
    MulMul(g, n, -1, p);
  }

  lemma Exchange<P(!new)>(g: Group<P>, u: P, v: P, x: P, y: P)
    requires Laws(g)
    ensures g.add(g.add(u, v), g.add(x, y)) == g.add(g.add(u, x), g.add(v, y))
  {
    hide Laws;
    Assoc(g, u, v, g.add(x, y));
    Assoc(g, v, x, y);
    Comm(g, v, x);
    Assoc(g, x, v, y);
    Assoc(g, u, x, g.add(v, y));
  }

  lemma {:induction false} MulZero<P(!new)>(g: Group<P>, n: int)
    requires Laws(g)
    ensures Mul(g, n, g.zero) == g.zero
  {
    hide Laws;
    assert Mul(g, 0, g.zero) == g.zero;
    MulMul(g, n, 0, g.zero);
  }

  /** Multiples only depend on the factor modulo the order. */
  lemma MulModOrder<P(!new)>(g: Group<P>, order: int, m: int, p: P)
    requires Laws(g) && order > 0 && Mul(g, order, p) == g.zero
    ensures Mul(g, m % order, p) == Mul(g, m, p)
  {
    hide Laws, Mul;
    var q := m / order;
    MulMul(g, q, order, p);
    MulZero(g, q);
    assert m == q * order + m % order;
    MulAdd(g, q * order, m % order, p);
    Unit(g, Mul(g, m % order, p));
  }
}
