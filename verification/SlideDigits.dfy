/** The digits that slide of Externals/ed25519/ge.c produces, as a number system: the non-adjacent form of
    width five, defined on the number itself. */
module SlideDigits {
  import opened Radix

  /** r[0] + 2 r[1] + 4 r[2] + ... */
  function BitSum(r: seq<int>): int {
    if |r| == 0 then 0 else r[0] + 2 * BitSum(r[1..])
  }

  lemma {:induction false} BitSumUpdate(r: seq<int>, k: nat, v: int)
    requires k < |r|
    ensures BitSum(r[k := v]) == BitSum(r) + (v - r[k]) * Pow2(k)
  {
    if k == 0 {
      assert r[0 := v][1..] == r[1..];
    } else {
      BitSumUpdate(r[1..], k - 1, v);
      assert r[k := v][1..] == r[1..][k - 1 := v];
      var d, w := v - r[k], Pow2(k - 1);
      assert 2 * (d * w) == d * (2 * w);
    }
  }

  lemma {:induction false} BitSumSplit(r: seq<int>, n: nat)
    requires n <= |r|
    ensures BitSum(r) == BitSum(r[..n]) + Pow2(n) * BitSum(r[n..])
  {
    if n == 0 {
      assert r[0..] == r;
    } else {
      BitSumSplit(r[1..], n - 1);
      assert r[..n][1..] == r[1..][..n - 1] && r[1..][n - 1..] == r[n..];
      var w, v := Pow2(n - 1), BitSum(r[n..]);
      assert 2 * (w * v) == 2 * w * v;
    }
  }

  lemma BitSumSnoc(r: seq<int>, n: nat)
    requires n < |r|
    ensures BitSum(r[..n + 1]) == BitSum(r[..n]) + r[n] * Pow2(n)
  {
    BitSumSplit(r[..n + 1], n);
    assert r[..n + 1][..n] == r[..n] && r[..n + 1][n..] == [r[n]];
    assert BitSum([r[n]]) == r[n];
  }

  lemma {:induction false} BitSumBounds(r: seq<int>)
    requires forall k :: 0 <= k < |r| ==> 0 <= r[k] <= 1
    ensures 0 <= BitSum(r) < Pow2(|r|)
    ensures (forall k :: 0 <= k < |r| ==> r[k] == 1) ==> BitSum(r) == Pow2(|r|) - 1
    ensures (forall k :: 0 <= k < |r| ==> r[k] == 0) ==> BitSum(r) == 0
  {
    if |r| > 0 {
      BitSumBounds(r[1..]);
    }
  }

  /** A recoded digit: zero, or odd and at most 15 in size. */
  predicate SlideDigit(x: int) {
    x == 0 || (x % 2 == 1 && -15 <= x <= 15)
  }

  // ------------------------------------------------------------- on the number

  /** The lowest digit of h: 0 if h is even, else the odd number nearest to 0 that leaves a multiple of 32. */
  function Digit(h: int): int {
    if h % 2 == 0 then 0 else if h % 32 < 16 then h % 32 else h % 32 - 32
  }

  /** What is left of v when n digits are taken off. */
  function Left(v: int, n: nat): int {
    if n == 0 then v else (Left(v, n - 1) - Digit(Left(v, n - 1))) / 2
  }

  /** What 256 digits can say of v: all of it or, when something is left, v without a carry of 2^256. */
  function Spelled(v: int): int {
    if Left(v, 256) == 0 then v else v - Pow2(256)
  }

  // --------------------------------------------------------------- on sequences

  /** After every digit but 0 come four zeros. */
  ghost predicate NonAdjacent(r: seq<int>) {
    && (forall k :: 0 <= k < |r| ==> SlideDigit(r[k]))
    && forall j, k :: 0 <= k < j < |r| && j < k + 5 && r[k] != 0 ==> r[j] == 0
  }

  lemma LowestDigit(r: seq<int>)
    requires NonAdjacent(r) && |r| > 0
    ensures Digit(BitSum(r)) == r[0]
  {
    if r[0] != 0 {
      FourZeros(r);
      hide BitSum;
      var w :| BitSum(r) == r[0] + 32 * w;
      DigitOf(r[0], w);
    }
  }

  lemma DigitOf(d: int, w: int)
    requires d % 2 == 1 && -15 <= d <= 15
    ensures Digit(d + 32 * w) == d
  {
    if d >= 0 {
      QuotientIs(d + 32 * w, 32, w, d);
    } else {
      QuotientIs(d + 32 * w, 32, w - 1, d + 32);
    }
  }

  lemma FourZeros(r: seq<int>)
    requires NonAdjacent(r) && |r| > 0 && r[0] != 0
    ensures exists w :: BitSum(r) == r[0] + 32 * w
  {
    var n := if |r| < 5 then |r| else 5;
    BitSumSplit(r, n);
    assert r[..n][0] == r[0];
    ZerosSum(r[..n][1..]);
    if n < 5 {
      assert BitSum(r) == r[0] + 32 * 0;
    } else {
      assert Pow2(5) == 32;
    }
  }

  lemma {:induction false} ZerosSum(r: seq<int>)
    requires forall k :: 0 <= k < |r| ==> r[k] == 0
    ensures BitSum(r) == 0
  {
    if |r| > 0 {
      ZerosSum(r[1..]);
    }
  }

  /** A non-adjacent form is the one its sum has: what is left after n digits is the sum of the others. */
  lemma {:induction false} FormIsUnique(r: seq<int>, n: nat)
    requires NonAdjacent(r) && n <= |r|
    ensures Left(BitSum(r), n) == BitSum(r[n..])
    ensures n < |r| ==> Digit(Left(BitSum(r), n)) == r[n]
  {
    if n > 0 {
      FormIsUnique(r, n - 1);
      assert r[n - 1..][1..] == r[n..];
    } else {
      assert r[0..] == r;
    }
    if n < |r| {
      assert NonAdjacent(r[n..]);
      hide BitSum;
      LowestDigit(r[n..]);
    }
  }

  // ------------------------------------------------------------------ what fits

  /** Up to 2^m, at most 2^(m-n) is left after n digits. */
  lemma {:induction false} LeftBound(v: int, m: nat, n: nat)
    requires 0 <= v <= Pow2(m) && n <= m
    ensures 0 <= Left(v, n) <= Pow2(m - n)
  {
    if n > 0 {
      LeftBound(v, m, n - 1);
      Pow2Double(m - n);
      PowerShape(m - n + 1);
      LeftOnce(Left(v, n - 1), Pow2(m - n));
    }
  }

  lemma PowerShape(n: nat)
    ensures Pow2(n) <= 16 || Pow2(n) % 32 == 0
  {
    assert Pow2(0) == 1 && Pow2(1) == 2 && Pow2(2) == 4 && Pow2(3) == 8 && Pow2(4) == 16 && Pow2(5) == 32;
    hide Pow2;
    if n >= 5 {
      Pow2Add(5, n - 5);
      QuotientIs(Pow2(n), 32, Pow2(n - 5), 0);
    }
  }

  lemma LeftOnce(h: int, p: nat)
    requires 0 <= h <= 2 * p && (2 * p <= 16 || 2 * p % 32 == 0)
    ensures 0 <= (h - Digit(h)) / 2 <= p
  {
    var q, d := h / 32, h % 32;
    assert h == 32 * q + d;
    if h % 2 == 1 && d >= 16 {
      var t := 2 * p / 32;
      if 2 * p > 16 {
        assert 2 * p == 32 * t;
        assert q < t;
      }
    }
  }

  /** Below 2^255, so in particular for every reduced scalar, 256 digits say all. */
  lemma SlideExact(v: int)
    requires 0 <= v < Pow2(255)
    ensures Spelled(v) == v
  {
    hide Pow2;
    LeftBound(v, 255, 255);
    assert Pow2(0) == 1 by { PowerZero(); }
    LeftIsOnce(v, 256);
  }

  lemma PowerZero()
    ensures Pow2(0) == 1
  {
  }

  lemma LeftIsOnce(v: int, n: nat)
    requires n > 0
    ensures Left(v, n) == (Left(v, n - 1) - Digit(Left(v, n - 1))) / 2
  {
  }

  /** Taking 2^m off v takes 2^(m-n) off what is left, as long as that is a multiple of 16. */
  lemma {:induction false} LeftWithout(v: int, m: nat, n: nat)
    requires n + 4 <= m
    ensures Left(v - Pow2(m), n) == Left(v, n) - Pow2(m - n)
  {
    if n > 0 {
      LeftWithout(v, m, n - 1);
      Pow2Double(m - n);
      Pow2Add(4, m - n - 4);
      assert Pow2(4) == 16;
      hide Pow2;
      OnceWithout(Left(v, n - 1), Pow2(m - n - 4));
    }
  }

  lemma OnceWithout(h: int, w: int)
    ensures (h - 32 * w - Digit(h - 32 * w)) / 2 == (h - Digit(h)) / 2 - 16 * w
  {
    DigitWithout(h, w);
    var e := h - Digit(h);
    hide Digit;
    QuotientIs(e - 32 * w, 2, e / 2 - 16 * w, e % 2);
  }

  lemma DigitWithout(h: int, w: int)
    ensures Digit(h - 32 * w) == Digit(h)
  {
    QuotientIs(h - 32 * w, 32, h / 32 - w, h % 32);
    QuotientIs(h - 32 * w, 2, h / 2 - 16 * w, h % 2);
  }

  /** The non-adjacent form with 256 digits, the top ones not negative, that sums to v or to v - 2^256:
      the sum is v exactly when nothing is left of v after 256 digits. */
  lemma FormSpells(r: seq<int>, v: int)
    requires |r| == 256 && NonAdjacent(r) && 0 <= v < Pow2(256) && (BitSum(r) == v || BitSum(r) == v - Pow2(256))
    requires forall k :: 252 <= k < 256 ==> r[k] >= 0
    ensures BitSum(r) == Spelled(v)
  {
    hide Pow2, BitSum, Left;
    if BitSum(r) == v {
      FormIsUnique(r, 256);
      assert BitSum(r[256..]) == 0 by { ZerosSum(r[256..]); }
    } else {
      LeftWithout(v, 256, 252);
      FormIsUnique(r, 252);
      NotNegative(r[252..]);
      LeftBound(v, 256, 252);
      assert Pow2(4) == 16 by { PowerFour(); }
      assert Left(v, 252) == 16;
      LeftIsOnce(v, 253);
      LeftIsOnce(v, 254);
      LeftIsOnce(v, 255);
      LeftIsOnce(v, 256);
    }
  }

  lemma PowerFour()
    ensures Pow2(4) == 16
  {
  }

  lemma {:induction false} NotNegative(r: seq<int>)
    requires forall k :: 0 <= k < |r| ==> r[k] >= 0
    ensures BitSum(r) >= 0
  {
    if |r| > 0 {
      NotNegative(r[1..]);
    }
  }

  /** Of 2^255 + 2^251 a carry is lost: entry 251 becomes -15, and the borrow clears entry 255. */
  lemma SlideLoses()
    ensures Spelled(Pow2(255) + Pow2(251)) == Pow2(251) - Pow2(255)
  {
    hide Pow2, Left;
    PureShift(251);
    assert Pow2(0) == 1 && Pow2(4) == 16 by { PowerZero(); PowerFour(); }
    CarriesOut(Pow2(255) + Pow2(251));
    Pow2Double(255);
  }

  lemma CarriesOut(v: int)
    requires Left(v, 251) == 17
    ensures Left(v, 252) == 16 && Left(v, 256) == 1
  {
    hide Left;
    LeftIsOnce(v, 252);
    assert Digit(17) == -15;
    LeftIsOnce(v, 253);
    LeftIsOnce(v, 254);
    LeftIsOnce(v, 255);
    LeftIsOnce(v, 256);
  }

  lemma {:induction false} PureShift(n: nat)
    requires n <= 251
    ensures Left(Pow2(255) + Pow2(251), n) == Pow2(255 - n) + Pow2(251 - n)
  {
    hide Pow2, Left, Digit;
    var v := Pow2(255) + Pow2(251);
    if n == 0 {
      NothingTaken(v);
    } else {
      PureShift(n - 1);
      Pow2Double(255 - n);
      Pow2Double(251 - n);
      LeftIsOnce(v, n);
      HalfOfEven(Pow2(255 - n) + Pow2(251 - n));
    }
  }

  lemma NothingTaken(v: int)
    ensures Left(v, 0) == v
  {
  }

  lemma HalfOfEven(x: int)
    ensures Digit(2 * x) == 0 && 2 * x / 2 == x
  {
  }
}
