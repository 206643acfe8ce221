/** Externals/ed25519/ge.c: the two signed-digit recodings and the scalar multiplications
    they drive, over an abstract group. Conversions between the point representations of the
    C code are the identity here. */
module ScalarMult {
  import opened Radix
  import opened AbelianGroups
  import opened SlideDigits

  // ---------------------------------------------------------------- slide

  /** Bits spread one per entry spell the value they were taken from. */
  lemma {:induction false} SpreadBits(a: seq<Byte>, r: seq<int>)
    requires |r| == 8 * |a|
    requires forall k :: 0 <= k < |r| ==> r[k] == a[k / 8] / Pow2(k % 8) % 2
    ensures BitSum(r) == BytesValue(a)
  {
    if |a| > 0 {
      var t := r[8..];
      forall k | 0 <= k < |t|
        ensures t[k] == a[1..][k / 8] / Pow2(k % 8) % 2
      {
        assert r[k + 8] == a[(k + 8) / 8] / Pow2((k + 8) % 8) % 2;
        assert (k + 8) / 8 == k / 8 + 1 && (k + 8) % 8 == k % 8;
      }
      SpreadBits(a[1..], t);
      BitSumSplit(r, 8);
      Pow2Of8();
      BitsOf(a[0], r[..8]);
    }
  }

  lemma {:induction false} BitsOf(x: nat, r: seq<int>)
    requires x < Pow2(|r|) && forall k :: 0 <= k < |r| ==> r[k] == x / Pow2(k) % 2
    ensures BitSum(r) == x
  {
    if |r| > 0 {
      assert r[0] == x / Pow2(0) % 2 && Pow2(0) == 1;
      forall k | 0 <= k < |r| - 1
        ensures r[1..][k] == x / 2 / Pow2(k) % 2
      {
        assert r[k + 1] == x / Pow2(k + 1) % 2;
        DivDiv(x, 2, Pow2(k));
      }
      BitsOf(x / 2, r[1..]);
    }
  }

  /** The sum still is v, or a carry was lost off the top, which takes a v of 2^255 or more. */
  ghost predicate Preserved(r: seq<int>, v: int) {
    0 <= v < Pow2(256) && (BitSum(r) == v || (BitSum(r) == v - Pow2(256) && v >= Pow2(255)))
  }

  /** Entries below i are final digits, the rest still bits, and whatever bit is met next is worth
      at least as much as the digits below may have overdrawn. */
  ghost predicate Recoding(r: seq<int>, i: nat, v: int) {
    && |r| == 256 && i <= 256 && Preserved(r, v)
    && (forall k :: 0 <= k < i ==> SlideDigit(r[k]))
    && (forall k :: i <= k < 256 ==> 0 <= r[k] <= 1)
    && (forall k :: i <= k < 256 && r[k] != 0 ==> BitSum(r[..i]) + Pow2(k) >= 0)
  }

  /** Entry i is being absorbed and has swallowed the bits below i+b. A negative entry has swallowed
      a set bit four places up. */
  ghost predicate Absorbing(r: seq<int>, i: nat, b: nat, v: int, low: seq<int>) {
    && |r| == 256 && i < 256 && 1 <= b && Preserved(r, v)
    && low == r[..i] && (forall k :: 0 <= k < i ==> SlideDigit(low[k]))
    && (forall k :: i < k < 256 ==> 0 <= r[k] <= 1)
    && (forall k :: i < k < i + b && k < 256 ==> r[k] == 0)
    && r[i] % 2 == 1 && -15 <= r[i] <= 15
    && (b <= 4 ==> 1 <= r[i] < Pow2(b))
    && BitSum(low) + Pow2(i) >= 0
  }

  /** Every final digit but 0 has its four zeros after it, and the last four are not negative. */
  ghost predicate Sparse(r: seq<int>, i: nat) {
    && |r| == 256 && i <= 256
    && (forall j, k :: 0 <= k < i && k < j < 256 && j < k + 5 && r[k] != 0 ==> r[j] == 0)
    && forall k :: 252 <= k < i ==> r[k] >= 0
  }

  lemma SparseNext(r: seq<int>, i: nat, b: nat, v: int, t: seq<int>, low: seq<int>)
    requires Sparse(r, i) && i < 256 && r[i] != 0 && low == r[..i]
    requires Absorbing(t, i, b, v, low) && i + b <= 256 && (b >= 5 || i + b == 256)
    ensures Sparse(t, i + 1)
  {
    hide BitSum, Pow2, Preserved;
    forall j, k | 0 <= k < i + 1 && k < j < 256 && j < k + 5 && t[k] != 0
      ensures t[j] == 0
    {
      if k < i {
        assert t[k] == low[k] == r[k];
        assert j < i && t[j] == low[j] == r[j];
      }
    }
    assert forall k :: 0 <= k < i ==> t[k] == low[k] == r[k];
  }

  lemma StartAbsorbing(r: seq<int>, i: nat, v: int)
    requires Recoding(r, i, v) && i < 256 && r[i] != 0
    ensures Absorbing(r, i, 1, v, r[..i])
  {
    assert Pow2(1) == 2;
  }

  lemma SmallPow2(b: nat)
    requires b <= 6
    ensures Pow2(b) == [1, 2, 4, 8, 16, 32, 64][b]
  {
  }

  lemma SkipBit(r: seq<int>, i: nat, b: nat, v: int, low: seq<int>)
    requires Absorbing(r, i, b, v, low) && b <= 6 && i + b < 256 && r[i + b] == 0
    ensures Absorbing(r, i, b + 1, v, low)
  {
    hide Preserved;
    assert b + 1 <= 4 ==> Pow2(b + 1) == 2 * Pow2(b);
  }

  /** r[i] += r[i+b] << b; r[i+b] = 0. */
  lemma AddBit(r: seq<int>, i: nat, b: nat, v: int, low: seq<int>)
    requires Absorbing(r, i, b, v, low) && b <= 6 && i + b < 256 && r[i + b] == 1
    requires r[i] + Pow2(b) <= 15
    ensures Absorbing(r[i := r[i] + Pow2(b)][i + b := 0], i, b + 1, v, low)
  {
    hide Pow2, BitSum;
    AddKeepsSum(r, i, b);
    Pow2Double(b - 1);
    Pow2Double(b);
    SmallPow2(b);
    ghost var p, t := Pow2(b), r[i := r[i] + Pow2(b)][i + b := 0];
    assert Preserved(t, v);
    hide Preserved;
    assert t[..i] == r[..i];
    assert t[i] == r[i] + p;
  }

  lemma AddKeepsSum(r: seq<int>, i: nat, b: nat)
    requires b > 0 && i + b < |r| && r[i + b] == 1
    ensures BitSum(r[i := r[i] + Pow2(b)][i + b := 0]) == BitSum(r)
  {
    hide Pow2, BitSum;
    MoveBit(r, i, b, Pow2(b), 0);
    assert Pow2(b) + (0 - 1) * Pow2(b) == 0;
  }

  /** Replacing entries i and i+b by r[i] + d and y. */
  lemma MoveBit(r: seq<int>, i: nat, b: nat, d: int, y: int)
    requires b > 0 && i + b < |r|
    ensures BitSum(r[i := r[i] + d][i + b := y]) == BitSum(r) + (d + (y - r[i + b]) * Pow2(b)) * Pow2(i)
  {
    BitSumUpdate(r, i, r[i] + d);
    BitSumUpdate(r[i := r[i] + d], i + b, y);
    hide Pow2, BitSum;
    Pow2Add(i, b);
    var e, p, q := y - r[i + b], Pow2(b), Pow2(i);
    assert e * (q * p) == e * p * q;
    assert (d + e * p) * q == d * q + e * p * q;
  }

  /** The subtraction is only ever reached four places up, from a positive entry. */
  lemma SubtractAtFour(r: seq<int>, i: nat, b: nat, v: int, low: seq<int>)
    requires Absorbing(r, i, b, v, low) && b <= 6 && i + b < 256 && r[i + b] == 1
    requires r[i] + Pow2(b) > 15 && r[i] - Pow2(b) >= -15
    ensures b == 4 && 1 <= r[i] <= 15
  {
    hide Preserved;
    SmallPow2(b);
  }

  /** The borrow has reached entry k: the set bits from i+4 on are cleared, and 2^k is owed. */
  ghost predicate Borrowing(r: seq<int>, c: seq<int>, i: nat, k: nat) {
    && |r| == |c| == 256 && i + 4 <= k <= 256 && i + 4 < 256
    && r[i + 4] == 1 && (forall j :: i < j < 256 ==> 0 <= r[j] <= 1)
    && c[..i] == r[..i] && c[i] == r[i] - 16
    && (forall j :: i < j < i + 4 ==> c[j] == r[j])
    && (forall j :: i + 4 <= j < k ==> r[j] == 1 && c[j] == 0)
    && (forall j :: k <= j < 256 ==> c[j] == r[j])
    && BitSum(c) == BitSum(r) - Pow2(k)
  }

  lemma StartBorrowing(r: seq<int>, i: nat)
    requires |r| == 256 && i + 4 < 256 && r[i + 4] == 1 && forall j :: i < j < 256 ==> 0 <= r[j] <= 1
    ensures Borrowing(r, r[i := r[i] - 16], i, i + 4)
  {
    BitSumUpdate(r, i, r[i] - 16);
    SmallPow2(4);
    Pow2Add(i, 4);
    hide Pow2, BitSum;
    assert r[i := r[i] - 16][..i] == r[..i];
  }

  lemma BorrowOn(r: seq<int>, c: seq<int>, i: nat, k: nat)
    requires Borrowing(r, c, i, k) && k < 256 && c[k] != 0
    ensures Borrowing(r, c[k := 0], i, k + 1)
  {
    BitSumUpdate(c, k, 0);
    assert Pow2(k + 1) == 2 * Pow2(k);
    hide Pow2, BitSum;
    assert c[k := 0][..i] == c[..i];
  }

  lemma BorrowFound(r: seq<int>, c: seq<int>, i: nat, k: nat, v: int, low: seq<int>)
    requires Borrowing(r, c, i, k) && k < 256 && c[k] == 0
    requires Absorbing(r, i, 4, v, low) && r[i] <= 15
    ensures Absorbing(c[k := 1], i, 5, v, low)
  {
    var t := c[k := 1];
    hide Pow2, BitSum, SlideDigit;
    BitSumUpdate(c, k, 1);
    assert k > i + 4 && t[i] == r[i] - 16 && BitSum(t) == BitSum(r);
    assert t[..i] == r[..i];
    assert forall j :: i < j < 256 ==> 0 <= t[j] <= 1 && (j < i + 5 ==> t[j] == 0);
    hide Borrowing;
    Lowered(r, t, i, v, low);
  }

  /** Subtracting what a set bit four places up is worth. */
  lemma Lowered(r: seq<int>, t: seq<int>, i: nat, v: int, low: seq<int>)
    requires Absorbing(r, i, 4, v, low) && i + 4 < 256
    requires |t| == 256 && t[i] == r[i] - 16 && t[..i] == r[..i] && Preserved(t, v)
    requires forall j :: i < j < 256 ==> 0 <= t[j] <= 1 && (j < i + 5 ==> t[j] == 0)
    ensures Absorbing(t, i, 5, v, low)
  {
    hide Pow2, BitSum, SlideDigit, Preserved;
  }

  /** The borrow runs off the top only when every bit from i+4 on was set. */
  lemma BorrowLost(r: seq<int>, c: seq<int>, i: nat, v: int, low: seq<int>)
    requires Borrowing(r, c, i, 256) && i + 4 < 256
    requires Absorbing(r, i, 4, v, low)
    ensures Absorbing(c, i, 5, v, low)
  {
    hide Pow2, BitSum;
    SmallPow2(4);
    assert BitSum(r) >= Pow2(255) && BitSum(c) == BitSum(r) - Pow2(256) by { hide Preserved; TopOnes(r, i); }
    assert Preserved(c, v);
    hide Preserved;
  }

  /** Below 2^255 the borrow finds a zero to set. */
  lemma BorrowFindsZero(r: seq<int>, i: nat, v: int, low: seq<int>)
    requires Absorbing(r, i, 4, v, low) && i + 4 < 256 && v < Pow2(255)
    ensures exists k :: i + 4 <= k < 256 && r[k] == 0
  {
    hide Pow2, BitSum;
    if forall k :: i + 4 <= k < 256 ==> r[k] == 1 {
      TopOnes(r, i);
    }
  }

  lemma TopOnes(r: seq<int>, i: nat)
    requires |r| == 256 && i + 4 < 256 && r[i] >= 1 && BitSum(r[..i]) + Pow2(i) >= 0
    requires (forall j :: i < j < i + 4 ==> r[j] == 0) && forall j :: i + 4 <= j < 256 ==> r[j] == 1
    ensures BitSum(r) >= Pow2(255)
  {
    hide Pow2, BitSum;
    Pow2Double(255);
    LowPart(r, i);
    BitSumSplit(r, i + 4);
    BitSumBounds(r[i + 4..]);
    Pow2Add(i + 4, 252 - i);
    Pow2Add(i + 4, 251 - i);
    assert |r[i + 4..]| == 252 - i;
    TopHalf(Pow2(i + 4), Pow2(252 - i), Pow2(251 - i));
  }

  lemma TopHalf(w: nat, u: int, t: int)
    requires w * u == 2 * (w * t) && t >= 1
    ensures w * (u - 1) >= w * t
  {
    MulAtLeast(w, t);
    assert w * (u - 1) == w * u - w;
  }

  lemma LowPart(r: seq<int>, i: nat)
    requires |r| == 256 && i + 4 < 256 && r[i] >= 1 && BitSum(r[..i]) + Pow2(i) >= 0
    requires forall j :: i < j < i + 4 ==> r[j] == 0
    ensures BitSum(r[..i + 4]) >= 0
  {
    hide Pow2, BitSum;
    BitSumSnoc(r, i);
    BitSumSnoc(r, i + 1);
    BitSumSnoc(r, i + 2);
    BitSumSnoc(r, i + 3);
    MulAtLeast(Pow2(i), r[i]);
  }

  lemma EndAbsorbing(r: seq<int>, i: nat, b: nat, v: int, low: seq<int>)
    requires Absorbing(r, i, b, v, low) && (b >= 5 || i + b >= 256)
    ensures Recoding(r, i + 1, v)
  {
    hide Pow2, BitSum, Preserved;
    BitSumSnoc(r, i);
    var x, p := r[i], Pow2(i);
    assert x * p >= (if x >= 1 then p else -15 * p) by {
      if x >= 1 { MulAtLeast(p, x); } else { assert (x + 15) * p >= 0; }
    }
    forall k | i + 1 <= k < 256 && r[k] != 0
      ensures BitSum(r[..i + 1]) + Pow2(k) >= 0
    {
      if x < 0 {
        HighBit(i, k);
      }
    }
  }

  lemma HighBit(i: nat, k: nat)
    requires k >= i + 5
    ensures Pow2(k) >= 32 * Pow2(i)
  {
    SmallPow2(5);
    Pow2Add(i + 5, k - (i + 5));
    Pow2Add(i, 5);
    hide Pow2;
    MulAtLeast(Pow2(i + 5), Pow2(k - (i + 5)));
  }

  /** Adds the borrowed 2^(i+4) to the bits from entry i+4 on. */
  method Borrow(r: array<int>, i: nat, ghost v: int, ghost low: seq<int>)
    requires r.Length == 256 && i + 4 < 256
    requires Absorbing(r[..], i, 4, v, low) && r[i + 4] == 1
    modifies r
    ensures Absorbing(r[..], i, 5, v, low)
  {
    ghost var was := r[..];
    assert was[i] <= 15 && forall j :: i < j < 256 ==> 0 <= was[j] <= 1;
    hide Absorbing, Borrowing;
    StartBorrowing(was, i);
    r[i] := r[i] - 16;
    assert r[..] == was[i := was[i] - 16];
    var k := i + 4;
    while k < 256
      invariant i + 4 <= k <= 256
      invariant Borrowing(was, r[..], i, k)
    {
      ghost var c := r[..];
      if r[k] == 0 {
        r[k] := 1;
        assert r[..] == c[k := 1];
        BorrowFound(was, c, i, k, v, low);
        return;
      }
      r[k] := 0;
      assert r[..] == c[k := 0];
      BorrowOn(was, c, i, k);
      k := k + 1;
    }
    BorrowLost(was, r[..], i, v, low);
  }

  /** The inner loop: entry i swallows up to six bits above it. */
  method Absorb(r: array<int>, i: nat, ghost v: int)
    requires r.Length == 256 && i < 256 && Recoding(r[..], i, v) && Sparse(r[..], i) && r[i] != 0
    modifies r
    ensures Recoding(r[..], i + 1, v) && Sparse(r[..], i + 1)
  {
    hide Recoding, Absorbing, Sparse, Pow2, BitSum;
    ghost var start := r[..];
    ghost var low := r[..i];
    assert low == r[..][..i];
    StartAbsorbing(r[..], i, v);
    var b := 1;
    while b <= 6 && i + b < 256
      invariant 1 <= b <= 7 && i + b <= 256 && Absorbing(r[..], i, b, v, low)
    {
      ghost var was := r[..];
      if r[i + b] != 0 {
        BitIsOne(was, i, b, v, low);
        if r[i] + r[i + b] * Pow2(b) <= 15 {
          r[i] := r[i] + r[i + b] * Pow2(b);
          r[i + b] := 0;
          assert r[..] == was[i := was[i] + Pow2(b)][i + b := 0];
          AddBit(was, i, b, v, low);
        } else if r[i] - r[i + b] * Pow2(b) >= -15 {
          SubtractAtFour(was, i, b, v, low);
          Borrow(r, i, v, low);
        } else {
          BreaksHigh(was, i, b, v, low);
          break;
        }
      } else {
        SkipBit(was, i, b, v, low);
      }
      b := b + 1;
    }
    EndAbsorbing(r[..], i, b, v, low);
    SparseNext(start, i, b, v, r[..], low);
  }

  lemma BitIsOne(r: seq<int>, i: nat, b: nat, v: int, low: seq<int>)
    requires Absorbing(r, i, b, v, low) && i + b < 256 && r[i + b] != 0
    ensures r[i + b] == 1
  {
  }

  /** When neither branch applies four bits have been passed. */
  lemma BreaksHigh(r: seq<int>, i: nat, b: nat, v: int, low: seq<int>)
    requires Absorbing(r, i, b, v, low) && b <= 6 && r[i] + Pow2(b) > 15 && r[i] - Pow2(b) < -15
    ensures b >= 5
  {
    hide Preserved;
    SmallPow2(b);
  }

  /** slide: signed sparse digits of a 256-bit number. */
  method Slide(r: array<int>, a: seq<Byte>)
    requires r.Length == 256 && |a| == 32
    modifies r
    ensures NonAdjacent(r[..]) && BitSum(r[..]) == Spelled(BytesValue(a))
  {
    ghost var v := BytesValue(a);
    for i := 0 to 256
      invariant forall k :: 0 <= k < i ==> r[k] == a[k / 8] / Pow2(k % 8) % 2
    {
      r[i] := a[i / 8] / Pow2(i % 8) % 2;
    }
    SpreadBits(a, r[..]);
    BytesBound(a);
    hide Pow2, BitSum, Preserved, BytesValue;
    assert Recoding(r[..], 0, v) by { SpreadIsRecoding(r[..], v); }
    hide Recoding, Sparse;
    assert Sparse(r[..], 0) by { NothingYet(r[..]); }
    for i := 0 to 256
      invariant Recoding(r[..], i, v) && Sparse(r[..], i)
    {
      if r[i] != 0 {
        Absorb(r, i, v);
      } else {
        PassZero(r[..], i, v);
      }
    }
    Recoded(r[..], v);
  }

  lemma NothingYet(r: seq<int>)
    requires |r| == 256
    ensures Sparse(r, 0)
  {
  }

  /** The final digits are the non-adjacent form of what they spell. */
  lemma Recoded(r: seq<int>, v: int)
    requires Recoding(r, 256, v) && Sparse(r, 256)
    ensures NonAdjacent(r) && BitSum(r) == Spelled(v)
  {
    hide BitSum, Pow2, Spelled;
    FormSpells(r, v);
  }

  lemma SpreadIsRecoding(r: seq<int>, v: int)
    requires |r| == 256 && BitSum(r) == v && 0 <= v < Pow2(256) && forall k :: 0 <= k < 256 ==> 0 <= r[k] <= 1
    ensures Recoding(r, 0, v)
  {
    assert BitSum(r[..0]) == 0;
  }

  lemma PassZero(r: seq<int>, i: nat, v: int)
    requires Recoding(r, i, v) && Sparse(r, i) && i < 256 && r[i] == 0
    ensures Recoding(r, i + 1, v) && Sparse(r, i + 1)
  {
    hide Pow2, BitSum, Preserved;
    BitSumSnoc(r, i);
  }

  // ------------------------------------------------- ge_double_scalarmult_vartime

  /** The odd multiples p, 3p, .., 15p. */
  ghost predicate OddMultiples<P(!new)>(g: Group<P>, t: seq<P>, p: P) {
    |t| == 8 && forall j :: 0 <= j < 8 ==> t[j] == Mul(g, 2 * j + 1, p)
  }

  /** The table Ai: p, then 2p added seven times over. */
  method OddTable<P(!new)>(g: Group<P>, p: P) returns (t: seq<P>)
    requires Laws(g)
    ensures OddMultiples(g, t, p)
  {
    hide Laws;
    var p2 := g.add(p, p);
    MulOne(g, p);
    assert p2 == Mul(g, 2, p) by { MulAdd(g, 1, 1, p); }
    t := [p];
    t := t + [g.add(p2, t[0])];
    t := t + [g.add(p2, t[1])];
    t := t + [g.add(p2, t[2])];
    t := t + [g.add(p2, t[3])];
    t := t + [g.add(p2, t[4])];
    t := t + [g.add(p2, t[5])];
    t := t + [g.add(p2, t[6])];
    hide Mul;
    MulAdd(g, 2, 1, p);
    MulAdd(g, 2, 3, p);
    MulAdd(g, 2, 5, p);
    MulAdd(g, 2, 7, p);
    MulAdd(g, 2, 9, p);
    MulAdd(g, 2, 11, p);
    MulAdd(g, 2, 13, p);
  }

  /** Adds d p, where t holds the odd multiples of p. The index stays inside the table. */
  method AddDigit<P(!new)>(g: Group<P>, x: P, d: int, t: seq<P>, ghost p: P) returns (y: P)
    requires Laws(g) && OddMultiples(g, t, p) && SlideDigit(d)
    ensures y == g.add(x, Mul(g, d, p))
  {
    hide Laws, Mul;
    if d > 0 {
      y := g.add(x, t[d / 2]);
    } else if d < 0 {
      y := g.add(x, g.neg(t[(-d) / 2]));
      MulNeg(g, -d, p);
    } else {
      y := x;
      assert Mul(g, 0, p) == g.zero by { MulNothing(g, p); }
      Unit(g, x);
    }
  }

  lemma MulNothing<P(!new)>(g: Group<P>, p: P)
    ensures Mul(g, 0, p) == g.zero
  {
  }

  /** m A + n B. */
  ghost function Combination<P(!new)>(g: Group<P>, m: int, A: P, n: int, B: P): P {
    g.add(Mul(g, m, A), Mul(g, n, B))
  }

  lemma CombinationAdd<P(!new)>(g: Group<P>, m: int, n: int, m': int, n': int, A: P, B: P)
    requires Laws(g)
    ensures Combination(g, m + m', A, n + n', B) == g.add(Combination(g, m, A, n, B), Combination(g, m', A, n', B))
  {
    hide Laws, Mul;
    MulAdd(g, m, m', A);
    MulAdd(g, n, n', B);
    Exchange(g, Mul(g, m, A), Mul(g, n, B), Mul(g, m', A), Mul(g, n', B));
  }

  /** One turn of the main loop: double, then add the two digits. */
  lemma HornerStep<P(!new)>(g: Group<P>, m: int, n: int, d: int, e: int, A: P, B: P)
    requires Laws(g)
    ensures var r := Combination(g, m, A, n, B);
            g.add(g.add(g.add(r, r), Mul(g, d, A)), Mul(g, e, B)) == Combination(g, d + 2 * m, A, e + 2 * n, B)
  {
    hide Laws, Mul;
    var r := Combination(g, m, A, n, B);
    Assoc(g, g.add(r, r), Mul(g, d, A), Mul(g, e, B));
    CombinationAdd(g, m, n, m, n, A, B);
    CombinationAdd(g, 2 * m, 2 * n, d, e, A, B);
  }

  /** The digits from i on, weighed from 1. */
  ghost function Tail(r: seq<int>, i: nat): int
    requires i <= |r|
  {
    BitSum(r[i..])
  }

  lemma TailStep(r: seq<int>, i: nat)
    requires i < |r|
    ensures Tail(r, i) == r[i] + 2 * Tail(r, i + 1)
  {
    assert r[i..][1..] == r[i + 1..];
  }

  lemma TailEnds(r: seq<int>)
    ensures Tail(r, 0) == BitSum(r) && Tail(r, |r|) == 0
  {
    assert r[0..] == r;
  }

  /** ge_double_scalarmult_vartime: a A + b B, where Bi holds the odd multiples of B. */
  method DoubleScalarMult<P(!new)>(g: Group<P>, a: seq<Byte>, A: P, b: seq<Byte>, B: P, Bi: seq<P>) returns (r: P)
    requires Laws(g) && OddMultiples(g, Bi, B)
    requires |a| == |b| == 32
    ensures r == Combination(g, Spelled(BytesValue(a)), A, Spelled(BytesValue(b)), B)
    ensures BytesValue(a) < Pow2(255) && BytesValue(b) < Pow2(255)
            ==> r == g.add(Mul(g, BytesValue(a), A), Mul(g, BytesValue(b), B))
  {
    hide Laws, Mul, OddMultiples, Spelled, Pow2, BytesValue, BitSum;
    var aslide, bslide := new int[256], new int[256];
    Slide(aslide, a);
    Slide(bslide, b);
    if BytesValue(a) < Pow2(255) && BytesValue(b) < Pow2(255) {
      SlideExact(BytesValue(a));
      SlideExact(BytesValue(b));
    }
    var Ai := OddTable(g, A);
    r := EvaluateDigits(g, aslide[..], A, Ai, bslide[..], B, Bi);
  }

  /** The loops over the digits: skip the leading zeros, then double and add. */
  method EvaluateDigits<P(!new)>(g: Group<P>, x: seq<int>, A: P, Ai: seq<P>, y: seq<int>, B: P,
      Bi: seq<P>) returns (r: P)
    requires Laws(g) && OddMultiples(g, Ai, A) && OddMultiples(g, Bi, B)
    requires |x| == |y| == 256 && forall k :: 0 <= k < 256 ==> SlideDigit(x[k]) && SlideDigit(y[k])
    ensures r == Combination(g, BitSum(x), A, BitSum(y), B)
  {
    hide Laws, Mul, OddMultiples, BitSum, Combination, Tail, SlideDigit;
    r := g.zero;
    var i := 255;
    TailEnds(x);
    TailEnds(y);
    while i >= 0
      invariant -1 <= i <= 255
      invariant Tail(x, i + 1) == 0 && Tail(y, i + 1) == 0
    {
      if x[i] != 0 || y[i] != 0 {
        break;
      }
      TailStep(x, i);
      TailStep(y, i);
      i := i - 1;
    }
    NoDigits(g, A, B);
    while i >= 0
      invariant -1 <= i <= 255
      invariant r == Combination(g, Tail(x, i + 1), A, Tail(y, i + 1), B)
    {
      HornerStep(g, Tail(x, i + 1), Tail(y, i + 1), x[i], y[i], A, B);
      TailStep(x, i);
      TailStep(y, i);
      var t := g.add(r, r);
      t := AddDigit(g, t, x[i], Ai, A);
      r := AddDigit(g, t, y[i], Bi, B);
      i := i - 1;
    }
  }

  lemma NoDigits<P(!new)>(g: Group<P>, A: P, B: P)
    requires Laws(g)
    ensures Combination(g, 0, A, 0, B) == g.zero
  {
    hide Laws;
    Unit(g, g.zero);
  }

  // ------------------------------------------------------------ ge_scalarmult_base

  /** e[0] + 16 e[1] + .. + 16^(n-1) e[n-1]. */
  ghost function NibbleSum(e: seq<int>, n: nat): int
    requires n <= |e|
  {
    if n == 0 then 0 else NibbleSum(e, n - 1) + e[n - 1] * Pow2(4 * (n - 1))
  }

  lemma {:induction false} NibbleSumLocal(e: seq<int>, f: seq<int>, n: nat)
    requires n <= |e| && n <= |f| && e[..n] == f[..n]
    ensures NibbleSum(e, n) == NibbleSum(f, n)
  {
    if n > 0 {
      assert e[..n][n - 1] == f[..n][n - 1];
      assert e[..n - 1] == e[..n][..n - 1] && f[..n - 1] == f[..n][..n - 1];
      NibbleSumLocal(e, f, n - 1);
    }
  }

  /** The first 2n nibbles spell the first n bytes. */
  lemma {:induction false} NibblesSpell(a: seq<Byte>, e: seq<int>, n: nat)
    requires |e| == 2 * |a| && n <= |a|
    requires forall i :: 0 <= i < n ==> e[2 * i] == a[i] % 16 && e[2 * i + 1] == a[i] / 16
    ensures NibbleSum(e, 2 * n) == BytesValue(a[..n])
  {
    if n > 0 {
      NibblesSpell(a, e, n - 1);
      BytesSnoc(a, n - 1);
      hide BytesValue;
      assert 8 * (n - 1) == 4 * (2 * n - 2);
      Pow2Add(4 * (2 * n - 2), 4);
      SmallPow2(4);
      assert NibbleSum(e, 2 * n) == NibbleSum(e, 2 * n - 1) + e[2 * n - 1] * Pow2(4 * (2 * n - 1));
      assert NibbleSum(e, 2 * n - 1) == NibbleSum(e, 2 * n - 2) + e[2 * n - 2] * Pow2(4 * (2 * n - 2));
      assert e[2 * (n - 1)] == a[n - 1] % 16 && e[2 * (n - 1) + 1] == a[n - 1] / 16;
      hide Pow2, NibbleSum;
      TwoNibbles(a[n - 1], Pow2(8 * (n - 1)));
    }
  }

  lemma TwoNibbles(x: Byte, p: int)
    ensures x % 16 * p + x / 16 * (p * 16) == x * p
  {
    assert x / 16 * (p * 16) == x / 16 * 16 * p;
    assert (x % 16 + x / 16 * 16) * p == x % 16 * p + x / 16 * 16 * p;
  }

  lemma ByteWeight(n: nat, x: int)
    requires n > 0
    ensures x * Pow2(8 * n) == 256 * (x * Pow2(8 * (n - 1)))
  {
    hide Pow2;
    Pow2Of8();
    Pow2Add(8, 8 * (n - 1));
    assert 8 + 8 * (n - 1) == 8 * n;
    Across(256, x, Pow2(8 * (n - 1)));
  }

  lemma Across(c: int, x: int, w: int)
    ensures c * (x * w) == x * (c * w)
  {
  }

  lemma {:induction false} BytesSnoc(a: seq<Byte>, n: nat)
    requires n < |a|
    ensures BytesValue(a[..n + 1]) == BytesValue(a[..n]) + a[n] * Pow2(8 * n)
  {
    var t := a[..n + 1];
    assert t[0] == a[0] && BytesValue(t) == a[0] + 256 * BytesValue(t[1..]);
    if n > 0 {
      var u := a[..n];
      assert u[0] == a[0] && BytesValue(u) == a[0] + 256 * BytesValue(u[1..]);
      BytesSnoc(a[1..], n - 1);
      assert t[1..] == a[1..][..n] && u[1..] == a[1..][..n - 1];
      hide Pow2, BytesValue;
      ByteWeight(n, a[n]);
    } else {
      assert t[1..] == [] && a[..0] == [];
    }
  }

  /** The first loop: two unsigned nibbles a byte. */
  method SplitNibbles(e: array<int>, a: seq<Byte>)
    requires e.Length == 64 && |a| == 32
    modifies e
    ensures NibbleSum(e[..], 64) == BytesValue(a)
    ensures forall k :: 0 <= k < 64 ==> 0 <= e[k] < 16
    ensures e[63] == a[31] / 16
  {
    hide BytesValue, NibbleSum;
    for i := 0 to 32
      invariant forall j :: 0 <= j < i ==> e[2 * j] == a[j] % 16 && e[2 * j + 1] == a[j] / 16
    {
      e[2 * i] := a[i] % 16;
      e[2 * i + 1] := a[i] / 16 % 16;
    }
    NibblesSpell(a, e[..], 32);
    assert a[..32] == a;
    assert e[2 * 31 + 1] == a[31] / 16;
    forall k | 0 <= k < 64
      ensures 0 <= e[k] < 16
    {
      assert e[2 * (k / 2)] == a[k / 2] % 16 && e[2 * (k / 2) + 1] == a[k / 2] / 16;
      assert k == 2 * (k / 2) || k == 2 * (k / 2) + 1;
    }
  }

  /** The radix-16 digits lie in -8 .. 8 and spell the scalar. */
  method Radix16(e: array<int>, a: seq<Byte>)
    requires e.Length == 64 && |a| == 32 && a[31] <= 127
    modifies e
    ensures NibbleSum(e[..], 64) == BytesValue(a)
    ensures forall i :: 0 <= i < 64 ==> -8 <= e[i] <= 8
  {
    hide BytesValue, NibbleSum, Pow2;
    SplitNibbles(e, a);
    ghost var nib := e[..];
    var carry := 0;
    NibbleStart(nib);
    for i := 0 to 63
      invariant 0 <= carry <= 1
      invariant forall k :: 0 <= k < i ==> -8 <= e[k] < 8
      invariant forall k :: i <= k < 64 ==> e[k] == nib[k]
      invariant NibbleSum(e[..], i) + carry * Pow2(4 * i) == NibbleSum(nib, i)
    {
      ghost var was, c := e[..], carry;
      e[i] := e[i] + carry;
      carry := (e[i] + 8) / 16;
      e[i] := e[i] - carry * 16;
      NibbleCarry(was, e[..], nib, i, c, carry);
    }
    ghost var was := e[..];
    e[63] := e[63] + carry;
    NibbleEnd(was, e[..], nib, carry);
  }

  lemma NibbleStart(e: seq<int>)
    ensures NibbleSum(e, 0) == 0
  {
  }

  lemma NibbleSnoc(e: seq<int>, n: nat)
    requires n < |e|
    ensures NibbleSum(e, n + 1) == NibbleSum(e, n) + e[n] * Pow2(4 * n)
  {
  }

  lemma NibbleEnd(was: seq<int>, e: seq<int>, nib: seq<int>, c: int)
    requires |was| == |e| == |nib| == 64
    requires e[..63] == was[..63] && e[63] == nib[63] + c
    requires NibbleSum(was, 63) + c * Pow2(4 * 63) == NibbleSum(nib, 63)
    ensures NibbleSum(e, 64) == NibbleSum(nib, 64)
  {
    hide Pow2, NibbleSum;
    NibbleSumLocal(was, e, 63);
    NibbleSnoc(e, 63);
    NibbleSnoc(nib, 63);
    var p := Pow2(4 * 63);
    assert (nib[63] + c) * p == nib[63] * p + c * p;
  }

  lemma NibbleCarry(was: seq<int>, e: seq<int>, nib: seq<int>, i: nat, c: int, c': int)
    requires |was| == |e| == |nib| == 64 && i < 63
    requires e[..i] == was[..i] && e[i] == nib[i] + c - c' * 16
    requires NibbleSum(was, i) + c * Pow2(4 * i) == NibbleSum(nib, i)
    ensures NibbleSum(e, i + 1) + c' * Pow2(4 * (i + 1)) == NibbleSum(nib, i + 1)
  {
    NibbleSumLocal(was, e, i);
    SmallPow2(4);
    var p := Pow2(4 * i);
    assert Pow2(4 * (i + 1)) == 16 * p by { hide Pow2; Pow2Add(4 * i, 4); }
    hide Pow2;
    assert e[i] * p == nib[i] * p + c * p - c' * (16 * p);
  }

  /** base[pos][j] holds (j+1) 256^pos B. */
  ghost predicate BaseTable<P(!new)>(g: Group<P>, base: seq<seq<P>>, B: P) {
    && |base| == 32 && (forall pos :: 0 <= pos < 32 ==> |base[pos]| == 8)
    && forall pos, j :: 0 <= pos < 32 && 0 <= j < 8 ==> base[pos][j] == Mul(g, (j + 1) * Pow2(8 * pos), B)
  }

  /** select: b 256^pos B for -8 <= b <= 8, by eight conditional moves and a conditional negation. */
  method Select<P(!new)>(g: Group<P>, base: seq<seq<P>>, pos: nat, b: int, ghost B: P) returns (t: P)
    requires Laws(g) && BaseTable(g, base, B) && pos < 32 && -8 <= b <= 8
    ensures t == Mul(g, b * Pow2(8 * pos), B)
  {
    hide Laws, Mul, Pow2;
    var babs := if b < 0 then -b else b;
    t := g.zero;
    if babs == 1 { t := base[pos][0]; }
    if babs == 2 { t := base[pos][1]; }
    if babs == 3 { t := base[pos][2]; }
    if babs == 4 { t := base[pos][3]; }
    if babs == 5 { t := base[pos][4]; }
    if babs == 6 { t := base[pos][5]; }
    if babs == 7 { t := base[pos][6]; }
    if babs == 8 { t := base[pos][7]; }
    MulNothing(g, B);
    assert t == Mul(g, babs * Pow2(8 * pos), B);
    if b < 0 {
      t := g.neg(t);
      MulNeg(g, babs * Pow2(8 * pos), B);
      assert -(babs * Pow2(8 * pos)) == b * Pow2(8 * pos);
    }
  }

  /** The digits at positions 2j+c for j < k, weighed by 256^j. */
  ghost function Strided(e: seq<int>, c: nat, k: nat): int
    requires 2 * k + c <= |e| + 1
  {
    if k == 0 then 0 else Strided(e, c, k - 1) + e[2 * (k - 1) + c] * Pow2(8 * (k - 1))
  }

  lemma OddWeight(x: int, k: nat)
    requires k > 0
    ensures x * Pow2(4 * (2 * k - 1)) == 16 * (x * Pow2(8 * (k - 1)))
  {
    hide Pow2;
    SmallPow2(4);
    Pow2Add(8 * (k - 1), 4);
    assert 4 * (2 * k - 1) == 8 * (k - 1) + 4;
    Across(16, x, Pow2(8 * (k - 1)));
  }

  lemma {:induction false} EvenAndOdd(e: seq<int>, k: nat)
    requires 2 * k <= |e|
    ensures NibbleSum(e, 2 * k) == Strided(e, 0, k) + 16 * Strided(e, 1, k)
  {
    if k > 0 {
      EvenAndOdd(e, k - 1);
      NibbleSnoc(e, 2 * k - 1);
      NibbleSnoc(e, 2 * k - 2);
      hide Pow2, NibbleSum;
      assert 4 * (2 * k - 2) == 8 * (k - 1);
      OddWeight(e[2 * k - 1], k);
    }
  }

  lemma AddMultiple<P(!new)>(g: Group<P>, h: P, m: int, n: int, B: P)
    requires Laws(g) && h == Mul(g, m, B)
    ensures g.add(h, Mul(g, n, B)) == Mul(g, m + n, B)
  {
    hide Laws, Mul;
    MulAdd(g, m, n, B);
  }

  lemma StridedStep(e: seq<int>, c: nat, k: nat)
    requires 2 * k + c < |e|
    ensures Strided(e, c, k + 1) == Strided(e, c, k) + e[2 * k + c] * Pow2(8 * k)
  {
  }

  /** One of the two passes over the digits, from every other position. */
  method AddStride<P(!new)>(g: Group<P>, base: seq<seq<P>>, e: seq<int>, c: nat, h0: P, ghost m: int,
      ghost B: P) returns (h: P)
    requires Laws(g) && BaseTable(g, base, B)
    requires |e| == 64 && c < 2 && forall i :: 0 <= i < 64 ==> -8 <= e[i] <= 8
    requires h0 == Mul(g, m, B)
    ensures h == Mul(g, m + Strided(e, c, 32), B)
  {
    hide Laws, Mul, Pow2, BaseTable, Strided;
    h := h0;
    assert Strided(e, c, 0) == 0 by { NoStride(e, c); }
    var i := c;
    while i < 64
      invariant c <= i <= 64 + c && (i - c) % 2 == 0
      invariant h == Mul(g, m + Strided(e, c, (i - c) / 2), B)
    {
      ghost var k := (i - c) / 2;
      assert i / 2 == k && 2 * k + c == i;
      var t := Select(g, base, i / 2, e[i], B);
      AddMultiple(g, h, m + Strided(e, c, k), e[i] * Pow2(8 * k), B);
      StridedStep(e, c, k);
      h := g.add(h, t);
      i := i + 2;
      assert (i - c) / 2 == k + 1;
    }
  }

  lemma NoStride(e: seq<int>, c: nat)
    requires c <= |e| + 1
    ensures Strided(e, c, 0) == 0
  {
  }

  /** ge_scalarmult_base: a B. */
  method ScalarMultBase<P(!new)>(g: Group<P>, base: seq<seq<P>>, a: seq<Byte>, B: P) returns (h: P)
    requires Laws(g) && BaseTable(g, base, B)
    requires |a| == 32 && a[31] <= 127
    ensures h == Mul(g, BytesValue(a), B)
  {
    hide Laws, Mul, Pow2, BytesValue, BaseTable, NibbleSum, Strided;
    var e := new int[64];
    Radix16(e, a);
    var digits := e[..];
    EvenAndOdd(digits, 32);
    MulNothing(g, B);
    h := AddStride(g, base, digits, 1, g.zero, 0, B);
    ghost var m := Strided(digits, 1, 32);
    h := g.add(h, h);
    MulAdd(g, m, m, B);
    h := g.add(h, h);
    MulAdd(g, 2 * m, 2 * m, B);
    h := g.add(h, h);
    MulAdd(g, 4 * m, 4 * m, B);
    h := g.add(h, h);
    MulAdd(g, 8 * m, 8 * m, B);
    h := AddStride(g, base, digits, 0, h, 16 * m, B);
  }

}
