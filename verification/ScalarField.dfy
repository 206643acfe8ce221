/** Externals/ed25519/sc.c: arithmetic modulo the group order L on 24 signed limbs of
    21 bits. The C code names the limbs s0..s23; here they are s[0]..s[23]. */
module ScalarField {
  import opened Radix

  const L: int := 0x1000_0000_0000_0000_0000_0000_0000_0000_0000_0000_0000_0000_0000_0000_0000_0000
                  + 27742317777372353535851937790883648493

  const R: int := 0x20_0000   // the limb radix, 2^21

  /** s[0] + R s[1] + R^2 s[2] + ... */
  function Value(s: seq<int>): int {
    if |s| == 0 then 0 else s[0] + R * Value(s[1..])
  }

  /** Weight of limb n: R^n. */
  function W(n: nat): (w: int)
    ensures w > 0
  {
    if n == 0 then 1 else R * W(n - 1)
  }

  ghost predicate Bounded(s: seq<int>, lo: nat, hi: nat, m: int) {
    hi <= |s| && forall i :: lo <= i < hi ==> -m <= s[i] <= m
  }

  lemma {:induction false} ValueUpdate(s: seq<int>, i: nat, v: int)
    requires i < |s|
    ensures Value(s[i := v]) == Value(s) + (v - s[i]) * W(i)
  {
    if i == 0 {
      assert s[0 := v][1..] == s[1..];
    } else {
      ValueUpdate(s[1..], i - 1, v);
      assert s[i := v][1..] == s[1..][i - 1 := v];
      var d, w := v - s[i], W(i - 1);
      assert R * (d * w) == d * (R * w);
    }
  }

  /** s[i] += d. */
  function AddTo(s: seq<int>, i: nat, d: int): (r: seq<int>)
    requires i < |s|
    ensures |r| == |s| && r[i] == s[i] + d && forall j :: 0 <= j < |s| && j != i ==> r[j] == s[j]
    ensures Value(r) == Value(s) + d * W(i)
  {
    ValueUpdate(s, i, s[i] + d);
    s[i := s[i] + d]
  }

  // ------------------------------------------------------------------ folds

  /** L = 2^252 + c, and -c has these signed digits in radix R. */
  const C: seq<int> := [666643, 470296, 654183, -997805, 136657, -683901]

  /** Limb k is folded into limbs k-12 .. k-7 and cleared. No product or sum leaves int64. */
  function Fold(s: seq<int>, k: nat): (r: seq<int>)
    requires |s| == 24 && 12 <= k < 24
    requires -0x100_0000_0000 <= s[k] <= 0x100_0000_0000
    requires Bounded(s, k - 12, k - 6, 0x1000_0000_0000_0000)
    ensures |r| == 24 && r[k] == 0
    ensures forall i :: 0 <= i < 24 && i != k && !(k - 12 <= i < k - 6) ==> r[i] == s[i]
    ensures r[k - 12] == s[k - 12] + s[k] * C[0] && r[k - 11] == s[k - 11] + s[k] * C[1]
    ensures r[k - 10] == s[k - 10] + s[k] * C[2] && r[k - 9] == s[k - 9] + s[k] * C[3]
    ensures r[k - 8] == s[k - 8] + s[k] * C[4] && r[k - 7] == s[k - 7] + s[k] * C[5]
  {
    hide Value, W;
    var x, n := s[k], k - 12;
    var s1 := AddTo(s, n, x * 666643);
    var s2 := AddTo(s1, n + 1, x * 470296);
    var s3 := AddTo(s2, n + 2, x * 654183);
    var s4 := AddTo(s3, n + 3, -x * 997805);
    var s5 := AddTo(s4, n + 4, x * 136657);
    var s6 := AddTo(s5, n + 5, -x * 683901);
    AddTo(s6, k, -x)
  }

  lemma FoldFits(s: seq<int>, k: nat)
    requires |s| == 24 && 12 <= k < 24
    requires -0x100_0000_0000 <= s[k] <= 0x100_0000_0000
    requires Bounded(s, k - 12, k - 6, 0x1000_0000_0000_0000)
    ensures forall j :: 0 <= j < 6 ==> FitsInt64(s[k] * C[j]) && FitsInt64(Fold(s, k)[k - 12 + j])
  {
    var x, r := s[k], Fold(s, k);
    hide Fold;
    forall j | 0 <= j < 6
      ensures FitsInt64(x * C[j]) && FitsInt64(r[k - 12 + j])
    {
      ScaledFits(x, j);
      assert r[k - 12 + j] == s[k - 12 + j] + x * C[j] by {
        if j == 0 {} else if j == 1 {} else if j == 2 {} else if j == 3 {} else if j == 4 {} else {}
      }
    }
  }

  lemma ScaledFits(x: int, j: nat)
    requires -0x100_0000_0000 <= x <= 0x100_0000_0000 && j < 6
    ensures -0x1000_0000_0000_0000 <= x * C[j] <= 0x1000_0000_0000_0000
  {
    if j == 0 {} else if j == 1 {} else if j == 2 {} else if j == 3 {} else if j == 4 {} else {}
  }

  /** Folding limb k subtracts a multiple of L. */
  lemma FoldValue(s: seq<int>, k: nat)
    requires |s| == 24 && 12 <= k < 24
    requires -0x100_0000_0000 <= s[k] <= 0x100_0000_0000
    requires Bounded(s, k - 12, k - 6, 0x1000_0000_0000_0000)
    ensures Value(Fold(s, k)) == Value(s) - s[k] * W(k - 12) * L
  {
    hide Value, W, AddTo;
    FoldWeights(s[k], k - 12);
  }

  lemma FoldWeights(x: int, n: nat)
    ensures x * 666643 * W(n) + x * 470296 * W(n + 1) + x * 654183 * W(n + 2) + -x * 997805 * W(n + 3)
            + x * 136657 * W(n + 4) + -x * 683901 * W(n + 5) + -x * W(n + 12) == -(x * W(n) * L)
  {
    ScaledWeights(x, n);
  }

  lemma ScaledWeights(x: int, n: nat)
    ensures x * W(n + 1) == R * (x * W(n))
    ensures x * W(n + 2) == 0x400_0000_0000 * (x * W(n))
    ensures x * W(n + 3) == 0x8000_0000_0000_0000 * (x * W(n))
    ensures x * W(n + 4) == 0x10_0000_0000_0000_0000_0000 * (x * W(n))
    ensures x * W(n + 5) == 0x200_0000_0000_0000_0000_0000_0000 * (x * W(n))
    ensures x * W(n + 12) == (L - 27742317777372353535851937790883648493) * (x * W(n))
  {
    ScaledWeight(x, n);
    ScaledWeight(x, n + 1);
    ScaledWeight(x, n + 2);
    ScaledWeight(x, n + 3);
    ScaledWeight(x, n + 4);
    ScaledWeight(x, n + 5);
    ScaledWeight(x, n + 6);
    ScaledWeight(x, n + 7);
    ScaledWeight(x, n + 8);
    ScaledWeight(x, n + 9);
    ScaledWeight(x, n + 10);
    ScaledWeight(x, n + 11);
  }

  lemma ScaledWeight(x: int, n: nat)
    ensures x * W(n + 1) == R * (x * W(n))
  {
    assert W(n + 1) == R * W(n);
  }

  // ----------------------------------------------------------------- carries

  /** The sum that is shifted, the carry shifted back, and both limbs after it fit int64. */
  ghost predicate CarryFits(x: int, y: int, half: int) {
    var carry := (x + half) / R;
    FitsInt64(x + half) && FitsInt64(y + carry) && FitsInt64(carry * R) && FitsInt64(x - carry * R)
  }

  lemma SmallCarryFits(x: int, y: int)
    requires -0x1000_0000_0000_0000 <= x <= 0x1000_0000_0000_0000
    requires -0x1000_0000_0000_0000 <= y <= 0x1000_0000_0000_0000
    ensures CarryFits(x, y, 0x10_0000) && CarryFits(x, y, 0)
  {
  }

  /** carry = (s[i] + 2^20) >> 21; s[i+1] += carry; s[i] -= carry << 21. */
  function CarryRound(s: seq<int>, i: nat): (r: seq<int>)
    requires i + 1 < |s|
    requires -0x1000_0000_0000_0000 <= s[i] <= 0x1000_0000_0000_0000
    requires -0x1000_0000_0000_0000 <= s[i + 1] <= 0x1000_0000_0000_0000
    ensures |r| == |s| && forall j :: 0 <= j < |s| && j != i && j != i + 1 ==> r[j] == s[j]
    ensures -0x10_0000 <= r[i] < 0x10_0000
    ensures r[i + 1] - s[i + 1] == (s[i] + 0x10_0000) / R
    ensures CarryFits(s[i], s[i + 1], 0x10_0000) && Value(r) == Value(s)
  {
    SmallCarryFits(s[i], s[i + 1]);
    hide CarryFits;
    var carry := (s[i] + 0x10_0000) / R;
    CarryWeights(carry, i);
    AddTo(AddTo(s, i + 1, carry), i, -(carry * R))
  }

  /** The same without rounding: the limb left behind is in [0, 2^21). */
  function CarryFloor(s: seq<int>, i: nat): (r: seq<int>)
    requires i + 1 < |s|
    requires -0x1000_0000_0000_0000 <= s[i] <= 0x1000_0000_0000_0000
    requires -0x1000_0000_0000_0000 <= s[i + 1] <= 0x1000_0000_0000_0000
    ensures |r| == |s| && forall j :: 0 <= j < |s| && j != i && j != i + 1 ==> r[j] == s[j]
    ensures 0 <= r[i] < R
    ensures r[i + 1] - s[i + 1] == s[i] / R
    ensures CarryFits(s[i], s[i + 1], 0) && Value(r) == Value(s)
  {
    SmallCarryFits(s[i], s[i + 1]);
    hide CarryFits;
    var carry := s[i] / R;
    CarryWeights(carry, i);
    AddTo(AddTo(s, i + 1, carry), i, -(carry * R))
  }

  lemma CarryWeights(carry: int, i: nat)
    ensures carry * W(i + 1) + (-(carry * R)) * W(i) == 0
  {
    assert W(i + 1) == R * W(i);
  }

  ghost predicate Congruent(a: int, b: int) {
    (a - b) % L == 0
  }

  lemma CongruentTrans(a: int, b: int, c: int)
    requires Congruent(a, b) && Congruent(b, c)
    ensures Congruent(a, c)
  {
  }

  lemma CongruentMinus(a: int, q: int)
    ensures Congruent(a - q * L, a)
  {
  }

  // ------------------------------------------------------------------ stages

  /** One fold of a limb of size x into limbs of size m, all below hi. */
  method FoldStep(s: seq<int>, k: nat, hi: nat, ghost x: int, ghost m: int) returns (r: seq<int>)
    requires |s| == 24 && 12 <= k < 24 && k - 6 <= hi <= k
    requires Bounded(s, 0, hi, m) && -x <= s[k] <= x
    requires x <= 0x100_0000_0000 && m <= 0x1000_0000_0000_0000
    ensures |r| == 24 && r[k] == 0 && forall i :: hi <= i < 24 && i != k ==> r[i] == s[i]
    ensures Bounded(r, 0, hi, m + 997805 * x)
    ensures r == Fold(s, k) && Congruent(Value(r), Value(s))
  {
    r := Fold(s, k);
    FoldBound(s, k, hi, x, m);
    FoldValue(s, k);
    CongruentMinus(Value(s), s[k] * W(k - 12));
  }

  lemma FoldBound(s: seq<int>, k: nat, hi: nat, x: int, m: int)
    requires |s| == 24 && 12 <= k < 24 && k - 6 <= hi <= k
    requires Bounded(s, 0, hi, m) && -x <= s[k] <= x
    requires x <= 0x100_0000_0000 && m <= 0x1000_0000_0000_0000
    ensures Bounded(Fold(s, k), 0, hi, m + 997805 * x)
  {
    var r := Fold(s, k);
    hide Fold;
  }

  /** First folds: limbs 23 .. 18 go into limbs 6 .. 16. */
  method FoldTop(s: seq<int>) returns (r: seq<int>)
    requires |s| == 24 && Bounded(s, 0, 24, 0x4000_0000)
    ensures |r| == 24 && Bounded(r, 0, 18, 0x20_0000_0000_0000) && Bounded(r, 18, 24, 0)
    ensures Bounded(r, 0, 6, 0x4000_0000) && Bounded(r, 17, 18, 0x4000_0000)
    ensures Congruent(Value(r), Value(s))
  {
    hide Value, Congruent, Fold;
    var s23 := FoldStep(s, 23, 18, 0x4000_0000, 0x4000_0000);
    var s22 := FoldStep(s23, 22, 18, 0x4000_0000, 0x4_0000_0000_0000);
    var s21 := FoldStep(s22, 21, 18, 0x4000_0000, 0x8_0000_0000_0000);
    var s20 := FoldStep(s21, 20, 18, 0x4000_0000, 0xC_0000_0000_0000);
    var s19 := FoldStep(s20, 19, 18, 0x4000_0000, 0x10_0000_0000_0000);
    r := FoldStep(s19, 18, 18, 0x4000_0000, 0x14_0000_0000_0000);
    CongruentTrans(Value(s22), Value(s23), Value(s));
    CongruentTrans(Value(s21), Value(s22), Value(s));
    CongruentTrans(Value(s20), Value(s21), Value(s));
    CongruentTrans(Value(s19), Value(s20), Value(s));
    CongruentTrans(Value(r), Value(s19), Value(s));
  }

  /** Rounding carries out of limbs 6, 8, .., 16 and then 7, 9, .., 15. */
  method CarryMiddle(s: seq<int>) returns (r: seq<int>)
    requires |s| == 24 && Bounded(s, 0, 18, 0x20_0000_0000_0000) && Bounded(s, 18, 24, 0)
    requires Bounded(s, 0, 6, 0x4000_0000) && Bounded(s, 17, 18, 0x4000_0000)
    ensures |r| == 24 && Bounded(r, 0, 18, 0x4_0000_0000) && Bounded(r, 18, 24, 0)
    ensures Value(r) == Value(s)
  {
    hide Value, CarryRound, CarryFits;
    r := CarryRound(s, 6);
    r := CarryRound(r, 8);
    r := CarryRound(r, 10);
    r := CarryRound(r, 12);
    r := CarryRound(r, 14);
    r := CarryRound(r, 16);
    r := CarryRound(r, 7);
    r := CarryRound(r, 9);
    r := CarryRound(r, 11);
    r := CarryRound(r, 13);
    r := CarryRound(r, 15);
  }

  /** Second folds: limbs 17 .. 12 go into limbs 0 .. 10. */
  method FoldMiddle(s: seq<int>) returns (r: seq<int>)
    requires |s| == 24 && Bounded(s, 0, 18, 0x4_0000_0000) && Bounded(s, 18, 24, 0)
    ensures |r| == 24 && Bounded(r, 0, 12, 0x200_0000_0000_0000) && Bounded(r, 12, 24, 0)
    ensures Congruent(Value(r), Value(s))
  {
    hide Value, Congruent, Fold;
    var s17 := FoldStep(s, 17, 12, 0x4_0000_0000, 0x4_0000_0000);
    var s16 := FoldStep(s17, 16, 12, 0x4_0000_0000, 0x40_0000_0000_0000);
    var s15 := FoldStep(s16, 15, 12, 0x4_0000_0000, 0x80_0000_0000_0000);
    var s14 := FoldStep(s15, 14, 12, 0x4_0000_0000, 0xC0_0000_0000_0000);
    var s13 := FoldStep(s14, 13, 12, 0x4_0000_0000, 0x100_0000_0000_0000);
    r := FoldStep(s13, 12, 12, 0x4_0000_0000, 0x140_0000_0000_0000);
    CongruentTrans(Value(s16), Value(s17), Value(s));
    CongruentTrans(Value(s15), Value(s16), Value(s));
    CongruentTrans(Value(s14), Value(s15), Value(s));
    CongruentTrans(Value(s13), Value(s14), Value(s));
    CongruentTrans(Value(r), Value(s13), Value(s));
  }

  /** Rounding carries out of limbs 0, 2, .., 10 and then 1, 3, .., 11. */
  method CarryLow(s: seq<int>) returns (r: seq<int>)
    requires |s| == 24 && Bounded(s, 0, 12, 0x200_0000_0000_0000) && Bounded(s, 12, 24, 0)
    ensures |r| == 24 && Bounded(r, 0, 13, 0x40_0000_0000) && Bounded(r, 13, 24, 0)
    ensures -0x10_0000 <= r[11] <= 0x10_0000
    ensures Value(r) == Value(s)
  {
    hide Value, CarryRound, CarryFits;
    r := CarryRound(s, 0);
    r := CarryRound(r, 2);
    r := CarryRound(r, 4);
    r := CarryRound(r, 6);
    r := CarryRound(r, 8);
    r := CarryRound(r, 10);
    r := CarryRound(r, 1);
    r := CarryRound(r, 3);
    r := CarryRound(r, 5);
    r := CarryRound(r, 7);
    r := CarryRound(r, 9);
    r := CarryRound(r, 11);
  }

  // ------------------------------------------------- the last two folds of s12

  /** 2^252, the weight of limb 12. */
  const T252: int := L - 27742317777372353535851937790883648493

  lemma {:induction false} ZeroValue(s: seq<int>)
    requires forall i :: 0 <= i < |s| ==> s[i] == 0
    ensures Value(s) == 0
  {
    if |s| > 0 {
      ZeroValue(s[1..]);
    }
  }

  lemma OneLimb(x: int)
    ensures Value([x]) == x && W(0) == 1
  {
  }

  lemma WeightStep(n: nat, w: int)
    requires W(n) == w
    ensures W(n + 1) == R * w
  {
  }

  lemma Weight12()
    ensures W(12) == T252 && W(11) == 0x8000000000000000000000000000000000000000000000000000000000
  {
    assert W(0) == 1;
    hide W;
    WeightStep(0, 0x1);
    WeightStep(1, 0x200000);
    WeightStep(2, 0x40000000000);
    WeightStep(3, 0x8000000000000000);
    WeightStep(4, 0x1000000000000000000000);
    WeightStep(5, 0x200000000000000000000000000);
    WeightStep(6, 0x40000000000000000000000000000000);
    WeightStep(7, 0x8000000000000000000000000000000000000);
    WeightStep(8, 0x1000000000000000000000000000000000000000000);
    WeightStep(9, 0x200000000000000000000000000000000000000000000000);
    WeightStep(10, 0x40000000000000000000000000000000000000000000000000000);
    WeightStep(11, 0x8000000000000000000000000000000000000000000000000000000000);
  }

  /** Twelve limbs and whatever limb 12 holds. */
  lemma Value13(s: seq<int>)
    requires |s| == 24 && Bounded(s, 13, 24, 0)
    ensures Value(s) == Value(s[..12]) + s[12] * T252
  {
    Split(s, 12);
    Weight12();
    assert s[12..][0] == s[12];
    assert s[12..][1..] == s[13..];
    ZeroValue(s[13..]);
  }

  lemma {:induction false} Split(s: seq<int>, n: nat)
    requires n <= |s|
    ensures Value(s) == Value(s[..n]) + W(n) * Value(s[n..])
  {
    if n == 0 {
      assert s[0..] == s;
    } else {
      Split(s[1..], n - 1);
      assert s[..n][1..] == s[1..][..n - 1] && s[1..][n - 1..] == s[n..];
      var w, v := W(n - 1), Value(s[n..]);
      assert R * (w * v) == R * w * v;
    }
  }

  lemma {:induction false} NormalValue(s: seq<int>)
    requires forall i :: 0 <= i < |s| ==> 0 <= s[i] < R
    ensures 0 <= Value(s) < W(|s|)
  {
    if |s| > 0 {
      NormalValue(s[1..]);
    }
  }

  lemma {:induction false} MagnitudeValue(s: seq<int>, m: int)
    requires m >= 0 && Bounded(s, 0, |s|, m)
    ensures -(m * (W(|s|) - 1)) <= (R - 1) * Value(s) <= m * (W(|s|) - 1)
  {
    if |s| > 0 {
      MagnitudeValue(s[1..], m);
      WeightStep(|s| - 1, W(|s| - 1));
      assert Value(s) == s[0] + R * Value(s[1..]);
      hide W, Value;
      OneMoreLimb(s[0], Value(s[1..]), m, W(|s| - 1));
    }
  }

  lemma OneMoreLimb(x: int, v: int, m: int, w: int)
    requires -m <= x <= m && -(m * (w - 1)) <= (R - 1) * v <= m * (w - 1)
    ensures -(m * (R * w - 1)) <= (R - 1) * (x + R * v) <= m * (R * w - 1)
  {
    assert m * (R * w - 1) == R * (m * (w - 1)) + (R - 1) * m;
  }

  /** After CarryLow, folding limb 12 brings the value strictly between -2^252 and 2^252. */
  lemma FirstLastFold(s: seq<int>)
    requires |s| == 24 && Bounded(s, 0, 13, 0x40_0000_0000) && Bounded(s, 13, 24, 0)
    requires -0x10_0000 <= s[11] <= 0x10_0000
    ensures -T252 < Value(Fold(s, 12)) < T252
  {
    OneLimb(s[11]);
    hide Fold, W, Value;
    FoldValue(s, 12);
    Value13(s);
    Split(s[..12], 11);
    assert s[..12][..11] == s[..11] && s[..12][11..] == [s[11]];
    MagnitudeValue(s[..11], 0x40_0000_0000);
    Weight12();
    assert Value(s) == Value(s[..11]) + W(11) * s[11] + s[12] * T252;
    LastFoldRange(Value(s[..11]), s[11], s[12]);
  }

  lemma LastFoldRange(v: int, x: int, y: int)
    requires -0x40_0000_0000 * 0x8000000000000000000000000000000000000000000000000000000000 <= (R - 1) * v
        <= 0x40_0000_0000 * 0x8000000000000000000000000000000000000000000000000000000000
    requires -0x10_0000 <= x <= 0x10_0000 && -0x40_0000_0000 <= y <= 0x40_0000_0000
    ensures -T252 < v + 0x8000000000000000000000000000000000000000000000000000000000 * x + y * T252 - y * L < T252
  {
  }

  /** Twelve floor carries leave normal limbs and limb 12 equal to -1 or 0. */
  lemma BorrowIsSmall(s: seq<int>)
    requires |s| == 24 && Bounded(s, 13, 24, 0)
    requires forall i :: 0 <= i < 12 ==> 0 <= s[i] < R
    requires -T252 < Value(s) < T252
    ensures -1 <= s[12] <= 0
    ensures 0 <= Value(s) - s[12] * L < L
  {
    hide W, Value;
    Value13(s);
    NormalValue(s[..12]);
    Weight12();
  }

  /** Eleven floor carries of a value below L leave limb 11 below 2^22, hence twelve limbs suffice. */
  lemma TopLimbIsSmall(s: seq<int>)
    requires |s| == 24 && Bounded(s, 12, 24, 0)
    requires forall i :: 0 <= i < 11 ==> 0 <= s[i] < R
    requires 0 <= Value(s) < L
    ensures 0 <= s[11] < 2 * R && Value(s) == Value(s[..12])
  {
    OneLimb(s[11]);
    hide W, Value;
    Value13(s);
    Split(s[..12], 11);
    assert s[..12][..11] == s[..11] && s[..12][11..] == [s[11]];
    NormalValue(s[..11]);
    Weight12();
    TopLimbRange(Value(s[..11]), s[11]);
  }

  lemma TopLimbRange(v: int, x: int)
    requires 0 <= v < 0x8000000000000000000000000000000000000000000000000000000000
        && 0 <= v + 0x8000000000000000000000000000000000000000000000000000000000 * x < L
    ensures 0 <= x < 2 * R
  {
  }

  /** Floor carries out of limbs 0, 1, .., 10. */
  method CarryUp(s: seq<int>) returns (r: seq<int>)
    requires |s| == 24 && Bounded(s, 0, 12, 0x800_0000_0000_0000) && Bounded(s, 12, 24, 0)
    ensures |r| == 24 && Bounded(r, 11, 12, 0xFFF_FFFF_FFFF_FFFF) && Bounded(r, 12, 24, 0)
    ensures forall i :: 0 <= i < 11 ==> 0 <= r[i] < R
    ensures Value(r) == Value(s)
  {
    hide Value, CarryFloor, CarryFits;
    r := CarryUpLow(s);
    r := CarryFloor(r, 6);
    r := CarryFloor(r, 7);
    r := CarryFloor(r, 8);
    r := CarryFloor(r, 9);
    r := CarryFloor(r, 10);
  }

  method CarryUpLow(s: seq<int>) returns (r: seq<int>)
    requires |s| == 24 && Bounded(s, 0, 12, 0x800_0000_0000_0000) && Bounded(s, 12, 24, 0)
    ensures |r| == 24 && Bounded(r, 6, 12, 0x900_0000_0000_0000) && Bounded(r, 12, 24, 0)
    ensures forall i :: 0 <= i < 6 ==> 0 <= r[i] < R
    ensures Value(r) == Value(s)
  {
    hide Value, CarryFloor, CarryFits;
    r := CarryFloor(s, 0);
    r := CarryFloor(r, 1);
    r := CarryFloor(r, 2);
    r := CarryFloor(r, 3);
    r := CarryFloor(r, 4);
    r := CarryFloor(r, 5);
  }

  /** From the last rounding carries to the canonical representative. */
  method Finish(s: seq<int>) returns (r: seq<int>)
    requires |s| == 24 && Bounded(s, 0, 13, 0x40_0000_0000) && Bounded(s, 13, 24, 0)
    requires -0x10_0000 <= s[11] <= 0x10_0000
    ensures |r| == 24 && 0 <= r[11] < 2 * R && forall i :: 0 <= i < 11 ==> 0 <= r[i] < R
    ensures Value(r[..12]) == Value(s) % L
  {
    hide Value, Fold, CarryFloor, CarryFits;
    FirstLastFold(s);
    var t := FoldStep(s, 12, 12, 0x40_0000_0000, 0x40_0000_0000);
    var u := CarryUp(t);
    u := CarryFloor(u, 11);
    BorrowIsSmall(u);
    FoldValue(u, 12);
    var v := FoldStep(u, 12, 12, 1, R);
    assert Bounded(v, 12, 24, 0);
    r := CarryUp(v);
    TopLimbIsSmall(r);
    ModFromCongruent(Value(r), Value(t), Value(s));
  }

  lemma ModFromCongruent(a: int, b: int, c: int)
    requires Congruent(a, b) && Congruent(b, c) && 0 <= a < L
    ensures a == c % L
  {
  }

  /** The common tail of sc_reduce and sc_muladd. */
  method Reduce(s: seq<int>) returns (r: seq<int>)
    requires |s| == 24 && Bounded(s, 0, 24, 0x4000_0000)
    ensures |r| == 24 && 0 <= r[11] < 2 * R && forall i :: 0 <= i < 11 ==> 0 <= r[i] < R
    ensures Value(r[..12]) == Value(s) % L
  {
    hide Value, Bounded, Congruent;
    var a := FoldTop(s);
    var b := CarryMiddle(a);
    var c := FoldMiddle(b);
    var d := CarryLow(c);
    r := Finish(d);
    CongruentTrans(Value(d), Value(a), Value(s));
    assert Value(d) % L == Value(s) % L by { SameRemainder(Value(d), Value(s)); }
  }

  lemma SameRemainder(a: int, b: int)
    requires Congruent(a, b)
    ensures a % L == b % L
  {
  }

  // ------------------------------------------------------- bytes to limbs

  lemma LoadAndRest(b: seq<Byte>, p: nat, m: nat)
    requires (m == 3 || m == 4) && p + m <= |b|
    ensures BytesValue(b) / Pow2(8 * p)
         == if m == 3 then Load3(b, p) + 0x100_0000 * BytesValue(b[p + 3..])
                      else Load4(b, p) + 0x1_0000_0000 * BytesValue(b[p + 4..])
  {
    DropBytes(b, p);
    hide BytesValue, Pow2;
    TakeByte(b, p);
    TakeByte(b, p + 1);
    TakeByte(b, p + 2);
    if m == 4 {
      TakeByte(b, p + 3);
    }
  }

  /** A multiple of m d drops out of (x / d) mod m. */
  lemma DropMultiple(x: int, d: int, m: int, k: int)
    requires d > 0 && m > 0
    ensures (x + d * (m * k)) / d % m == x / d % m
  {
    var q := x / d;
    assert d * (q + m * k) == d * q + d * (m * k);
    QuotientIs(x + d * (m * k), d, q + m * k, x % d);
    var q' := q / m;
    assert m * (q' + k) == m * q' + m * k;
    QuotientIs(q + m * k, m, q' + k, q % m);
  }

  lemma DropHigh24(x: nat, h: nat, r: nat)
    requires r <= 3
    ensures (x + 0x100_0000 * h) / Pow2(r) % R == x / Pow2(r) % R
  {
    SmallPowers();
    DropMultiple(x, Pow2(r), R, Pow2(3 - r) * h);
    assert Pow2(r) * (R * (Pow2(3 - r) * h)) == 0x100_0000 * h by {
      if r == 0 {} else if r == 1 {} else if r == 2 {} else {}
    }
  }

  lemma DropHigh32(x: nat, h: nat, r: nat)
    requires r < 8
    ensures (x + 0x1_0000_0000 * h) / Pow2(r) % R == x / Pow2(r) % R
  {
    SmallPowers();
    var k := Pow2(7 - r) * h * 16;
    DropMultiple(x, Pow2(r), R, k);
    assert Pow2(r) * (R * k) == 0x1_0000_0000 * h by {
      if r == 0 {} else if r == 1 {} else if r == 2 {} else if r == 3 {} else if r == 4 {} else if r == 5 {} else if r == 6 {} else {}
    }
  }

  /** What a masked load yields is the digit of radix 2^21 that starts at bit 8p+r. */
  lemma LimbIsDigit(b: seq<Byte>, i: nat, p: nat, m: nat, r: nat, x: int)
    requires m == 3 || m == 4
    requires p + m <= |b| && r < 8 && r + 21 <= 8 * m && 8 * p + r == 21 * i
    requires x == (if m == 3 then Load3(b, p) else Load4(b, p)) / Pow2(r) % R
    ensures x == BytesValue(b) / Pow2(21 * i) % R && 0 <= x < R
  {
    LoadAndRest(b, p, m);
    Pow2Add(8 * p, r);
    DivDiv(BytesValue(b), Pow2(8 * p), Pow2(r));
    if m == 3 {
      DropHigh24(Load3(b, p), BytesValue(b[p + 3..]), r);
    } else {
      DropHigh32(Load4(b, p), BytesValue(b[p + 4..]), r);
    }
  }

  /** The last load takes every bit that is left. */
  lemma LastLimb(b: seq<Byte>, i: nat, p: nat, r: nat, x: int)
    requires p + 4 == |b| && r < 8 && 8 * p + r == 21 * i
    requires x == Load4(b, p) / Pow2(r)
    ensures x == BytesValue(b) / Pow2(21 * i)
  {
    LoadAndRest(b, p, 4);
    Pow2Add(8 * p, r);
    DivDiv(BytesValue(b), Pow2(8 * p), Pow2(r));
  }

  lemma Pow2Of21()
    ensures Pow2(21) == R
  {
    Powers();
  }

  lemma DigitShift(v: nat, i: nat)
    ensures v / R / Pow2(21 * i) == v / Pow2(21 * (i + 1))
  {
    hide Pow2;
    Pow2Of21();
    Pow2Add(21, 21 * i);
    assert 21 * (i + 1) == 21 + 21 * i;
    DivDiv(v, R, Pow2(21 * i));
  }

  lemma {:induction false} DigitsValue(s: seq<int>, v: nat)
    requires |s| > 0
    requires forall i :: 0 <= i < |s| - 1 ==> s[i] == v / Pow2(21 * i) % R
    requires s[|s| - 1] == v / Pow2(21 * (|s| - 1))
    ensures Value(s) == v
  {
    assert Pow2(21 * 0) == 1;
    hide Pow2;
    if |s| > 1 {
      DigitShift(v, |s| - 2);
      forall i | 0 <= i < |s| - 2
        ensures s[1..][i] == v / R / Pow2(21 * i) % R
      {
        DigitShift(v, i);
        assert s[i + 1] == v / Pow2(21 * (i + 1)) % R;
      }
      DigitsValue(s[1..], v / R);
      assert s[0] == v / Pow2(21 * 0) % R;
    } else {
      assert s[1..] == [];
    }
  }

  /** The 24 loads at the head of sc_reduce. */
  function Limbs64(s: seq<Byte>): (h: seq<int>)
    requires |s| == 64
    ensures |h| == 24
  {
    [Load3(s, 0) % R, Load4(s, 2) / 32 % R, Load3(s, 5) / 4 % R, Load4(s, 7) / 128 % R,
     Load4(s, 10) / 16 % R, Load3(s, 13) / 2 % R, Load4(s, 15) / 64 % R, Load3(s, 18) / 8 % R,
     Load3(s, 21) % R, Load4(s, 23) / 32 % R, Load3(s, 26) / 4 % R, Load4(s, 28) / 128 % R,
     Load4(s, 31) / 16 % R, Load3(s, 34) / 2 % R, Load4(s, 36) / 64 % R, Load3(s, 39) / 8 % R,
     Load3(s, 42) % R, Load4(s, 44) / 32 % R, Load3(s, 47) / 4 % R, Load4(s, 49) / 128 % R,
     Load4(s, 52) / 16 % R, Load3(s, 55) / 2 % R, Load4(s, 57) / 64 % R, Load4(s, 60) / 8]
  }

  /** The 12 loads sc_muladd makes of each argument. */
  function Limbs32(a: seq<Byte>): (h: seq<int>)
    requires |a| == 32
    ensures |h| == 12
  {
    [Load3(a, 0) % R, Load4(a, 2) / 32 % R, Load3(a, 5) / 4 % R, Load4(a, 7) / 128 % R,
     Load4(a, 10) / 16 % R, Load3(a, 13) / 2 % R, Load4(a, 15) / 64 % R, Load3(a, 18) / 8 % R,
     Load3(a, 21) % R, Load4(a, 23) / 32 % R, Load3(a, 26) / 4 % R, Load4(a, 28) / 128]
  }

  lemma LowDigits64(s: seq<Byte>)
    requires |s| == 64
    ensures forall i :: 0 <= i < 12 ==> Limbs64(s)[i] == BytesValue(s) / Pow2(21 * i) % R && 0 <= Limbs64(s)[i] < R
  {
    hide BytesValue, Value, Load3, Load4, Pow2;
    SmallPowers();
    var h := Limbs64(s);
    LimbIsDigit(s, 0, 0, 3, 0, h[0]);
    LimbIsDigit(s, 1, 2, 4, 5, h[1]);
    LimbIsDigit(s, 2, 5, 3, 2, h[2]);
    LimbIsDigit(s, 3, 7, 4, 7, h[3]);
    LimbIsDigit(s, 4, 10, 4, 4, h[4]);
    LimbIsDigit(s, 5, 13, 3, 1, h[5]);
    LimbIsDigit(s, 6, 15, 4, 6, h[6]);
    LimbIsDigit(s, 7, 18, 3, 3, h[7]);
    LimbIsDigit(s, 8, 21, 3, 0, h[8]);
    LimbIsDigit(s, 9, 23, 4, 5, h[9]);
    LimbIsDigit(s, 10, 26, 3, 2, h[10]);
    LimbIsDigit(s, 11, 28, 4, 7, h[11]);
  }

  lemma HighDigits64(s: seq<Byte>)
    requires |s| == 64
    ensures forall i :: 12 <= i < 23 ==> Limbs64(s)[i] == BytesValue(s) / Pow2(21 * i) % R && 0 <= Limbs64(s)[i] < R
  {
    hide BytesValue, Value, Load3, Load4, Pow2;
    SmallPowers();
    var h := Limbs64(s);
    LimbIsDigit(s, 12, 31, 4, 4, h[12]);
    LimbIsDigit(s, 13, 34, 3, 1, h[13]);
    LimbIsDigit(s, 14, 36, 4, 6, h[14]);
    LimbIsDigit(s, 15, 39, 3, 3, h[15]);
    LimbIsDigit(s, 16, 42, 3, 0, h[16]);
    LimbIsDigit(s, 17, 44, 4, 5, h[17]);
    LimbIsDigit(s, 18, 47, 3, 2, h[18]);
    LimbIsDigit(s, 19, 49, 4, 7, h[19]);
    LimbIsDigit(s, 20, 52, 4, 4, h[20]);
    LimbIsDigit(s, 21, 55, 3, 1, h[21]);
    LimbIsDigit(s, 22, 57, 4, 6, h[22]);
  }

  lemma Limbs64Value(s: seq<Byte>)
    requires |s| == 64
    ensures Value(Limbs64(s)) == BytesValue(s)
    ensures forall i :: 0 <= i < 23 ==> 0 <= Limbs64(s)[i] < R
    ensures 0 <= Limbs64(s)[23] < 0x2000_0000
  {
    var h := Limbs64(s);
    SmallPowers();
    hide BytesValue, Value, Load3, Load4;
    LastLimb(s, 23, 60, 3, h[23]);
    Load4Bound(s, 60);
    hide Limbs64, Pow2;
    LowDigits64(s);
    HighDigits64(s);
    DigitsValue(h, BytesValue(s));
  }

  lemma Limbs32Value(a: seq<Byte>)
    requires |a| == 32
    ensures Value(Limbs32(a)) == BytesValue(a)
    ensures forall i :: 0 <= i < 11 ==> 0 <= Limbs32(a)[i] < R
    ensures 0 <= Limbs32(a)[11] < 0x200_0000
  {
    hide BytesValue, Value, Load3, Load4;
    SmallPowers();
    var h := Limbs32(a);
    LimbIsDigit(a, 0, 0, 3, 0, h[0]);
    LimbIsDigit(a, 1, 2, 4, 5, h[1]);
    LimbIsDigit(a, 2, 5, 3, 2, h[2]);
    LimbIsDigit(a, 3, 7, 4, 7, h[3]);
    LimbIsDigit(a, 4, 10, 4, 4, h[4]);
    LimbIsDigit(a, 5, 13, 3, 1, h[5]);
    LimbIsDigit(a, 6, 15, 4, 6, h[6]);
    LimbIsDigit(a, 7, 18, 3, 3, h[7]);
    LimbIsDigit(a, 8, 21, 3, 0, h[8]);
    LimbIsDigit(a, 9, 23, 4, 5, h[9]);
    LimbIsDigit(a, 10, 26, 3, 2, h[10]);
    LastLimb(a, 11, 28, 7, h[11]);
    Load4Bound(a, 28);
    DigitsValue(h, BytesValue(a));
  }

  lemma Load4Bound(b: seq<Byte>, p: nat)
    requires p + 4 <= |b|
    ensures Load4(b, p) < 0x1_0000_0000
  {
  }

  lemma SmallPowers()
    ensures Pow2(0) == 1 && Pow2(1) == 2 && Pow2(2) == 4 && Pow2(3) == 8
    ensures Pow2(4) == 16 && Pow2(5) == 32 && Pow2(6) == 64 && Pow2(7) == 128
  {
  }

  // ------------------------------------------------------- limbs to bytes

  /** The 32 stores that end both functions. Where the C code joins two limbs with `|`, the low bits
      of the shifted limb are zero and the other limb has been shifted below them, so it is a sum. */
  function Stored(s: seq<int>): (b: seq<Byte>)
    requires |s| == 12
    ensures |b| == 32
  {
    [Low(s[0]), Low(s[0] / 256), Low(s[0] / 65536 + s[1] * 32), Low(s[1] / 8),
     Low(s[1] / 2048), Low(s[1] / 524288 + s[2] * 4), Low(s[2] / 64), Low(s[2] / 16384 + s[3] * 128),
     Low(s[3] / 2), Low(s[3] / 512), Low(s[3] / 131072 + s[4] * 16), Low(s[4] / 16),
     Low(s[4] / 4096), Low(s[4] / 1048576 + s[5] * 2), Low(s[5] / 128), Low(s[5] / 32768 + s[6] * 64),
     Low(s[6] / 4), Low(s[6] / 1024), Low(s[6] / 262144 + s[7] * 8), Low(s[7] / 32),
     Low(s[7] / 8192), Low(s[8]), Low(s[8] / 256), Low(s[8] / 65536 + s[9] * 32),
     Low(s[9] / 8), Low(s[9] / 2048), Low(s[9] / 524288 + s[10] * 4), Low(s[10] / 64),
     Low(s[10] / 16384 + s[11] * 128), Low(s[11] / 2), Low(s[11] / 512), Low(s[11] / 131072)]
  }

  ghost predicate Normal(s: seq<int>) {
    |s| == 12 && 0 <= s[11] < 2 * R && forall i :: 0 <= i < 11 ==> 0 <= s[i] < R
  }

  lemma {:induction false} DropLimbs(s: seq<int>, i: nat)
    requires i <= |s| && forall k :: 0 <= k < i ==> 0 <= s[k] < R
    ensures Value(s) / Pow2(21 * i) == Value(s[i..])
  {
    if i == 0 {
      assert s[0..] == s && Pow2(21 * 0) == 1;
    } else {
      DropLimbs(s[1..], i - 1);
      assert s[1..][i - 1..] == s[i..];
      hide Pow2;
      Pow2Of21();
      Pow2Add(21, 21 * (i - 1));
      assert 21 * i == 21 + 21 * (i - 1);
      DivDiv(Value(s), R, Pow2(21 * (i - 1)));
      QuotientIs(Value(s), R, Value(s[1..]), s[0]);
    }
  }

  lemma ShiftSum(x: int, v: int, p: int, q: int)
    requires p > 0 && p * q == R
    ensures (x + R * v) / p == x / p + q * v
  {
    assert R * v == p * (q * v) by { assert p * (q * v) == p * q * v; }
    assert p * (x / p + q * v) == p * (x / p) + p * (q * v);
    QuotientIs(x + R * v, p, x / p + q * v, x % p);
  }

  /** Shifting limb i and all above it right by r. */
  lemma ShiftAcross(s: seq<int>, i: nat, r: nat)
    requires Normal(s) && i < 12 && r < 21
    ensures Value(s) / Pow2(21 * i + r) == s[i] / Pow2(r) + Pow2(21 - r) * Value(s[i + 1..])
  {
    DropLimbs(s, i);
    hide Pow2, Value, Normal;
    PeelLimb(s, i);
    Pow2Add(21 * i, r);
    DivDiv(Value(s), Pow2(21 * i), Pow2(r));
    Pow2Of21();
    Pow2Add(r, 21 - r);
    ShiftSum(s[i], Value(s[i + 1..]), Pow2(r), Pow2(21 - r));
  }

  /** Bits r .. r+7 above limb i come from limb i and, if they run over, from limb i+1. */
  lemma BitsAbove(s: seq<int>, i: nat, r: nat)
    requires Normal(s) && i < 12 && r < 21
    ensures Value(s) / Pow2(21 * i + r) % 256 == Joined(s, i, r) % 256
  {
    hide Pow2, Value;
    ShiftAcross(s, i, r);
    var x := s[i] / Pow2(r);
    if i == 11 {
      NoLimbs(s[12..]);
    } else if r + 8 <= 21 {
      Powers();
      Pow2Add(8, 13 - r);
      DropHighByte(x, Pow2(21 - r), Pow2(13 - r), Value(s[i + 1..]));
    } else {
      PeelLimb(s, i + 1);
      DropHighLimb(x, Pow2(21 - r), s[i + 1], Value(s[i + 2..]));
    }
  }

  lemma NoLimbs(s: seq<int>)
    requires |s| == 0
    ensures Value(s) == 0
  {
  }

  lemma PeelLimb(s: seq<int>, i: nat)
    requires i < |s|
    ensures Value(s[i..]) == s[i] + R * Value(s[i + 1..])
  {
    assert s[i..][1..] == s[i + 1..];
  }

  lemma DropHighLimb(x: int, q: int, y: int, v: int)
    ensures (x + q * (y + R * v)) % 256 == (x + y * q) % 256
  {
    assert q * (y + R * v) == y * q + 256 * (8192 * (q * v));
  }

  lemma StoredValue(s: seq<int>)
    requires Normal(s)
    ensures BytesValue(Stored(s)) == Value(s)
  {
    hide BytesValue, Value, Low, Pow2;
    assert 0 <= Value(s) < Pow2(8 * 32) by { ValueBelow(s); }
    var b := Stored(s);
    forall j | 0 <= j < 32
      ensures b[j] == Value(s) / Pow2(8 * j) % 256
    {
      StoredDigit(s, j);
    }
    BytesOfDigits(b, Value(s));
  }

  /** Limb i shifted right by r, joined with limb i+1 where the byte runs over. */
  function Joined(s: seq<int>, i: nat, r: nat): int
    requires |s| == 12 && i < 12 && r < 21
  {
    s[i] / Pow2(r) + if r + 8 <= 21 || i == 11 then 0 else s[i + 1] * Pow2(21 - r)
  }

  lemma Powers()
    ensures Pow2(0) == 1 && Pow2(1) == 2 && Pow2(2) == 4 && Pow2(3) == 8 && Pow2(4) == 16 && Pow2(5) == 32
        && Pow2(6) == 64
    ensures Pow2(7) == 128 && Pow2(8) == 256 && Pow2(9) == 512 && Pow2(10) == 1024 && Pow2(11) == 2048
        && Pow2(12) == 4096
    ensures Pow2(13) == 8192 && Pow2(14) == 16384 && Pow2(15) == 32768 && Pow2(16) == 65536 && Pow2(17) == 131072
    ensures Pow2(18) == 262144 && Pow2(19) == 524288 && Pow2(20) == 1048576
  {
  }

  lemma StoredJoined0(s: seq<int>, j: nat)
    requires |s| == 12 && 0 <= j < 8
    ensures Stored(s)[j] == Low(Joined(s, 8 * j / 21, 8 * j % 21))
  {
    hide Low, Pow2;
    Powers();
    var b := Stored(s);
    if j == 0 {
      assert b[0] == Low(Joined(s, 0, 0));
    } else if j == 1 {
      assert b[1] == Low(Joined(s, 0, 8));
    } else if j == 2 {
      assert b[2] == Low(Joined(s, 0, 16));
    } else if j == 3 {
      assert b[3] == Low(Joined(s, 1, 3));
    } else if j == 4 {
      assert b[4] == Low(Joined(s, 1, 11));
    } else if j == 5 {
      assert b[5] == Low(Joined(s, 1, 19));
    } else if j == 6 {
      assert b[6] == Low(Joined(s, 2, 6));
    } else {
      assert b[7] == Low(Joined(s, 2, 14));
    }
  }

  lemma StoredJoined8(s: seq<int>, j: nat)
    requires |s| == 12 && 8 <= j < 16
    ensures Stored(s)[j] == Low(Joined(s, 8 * j / 21, 8 * j % 21))
  {
    hide Low, Pow2;
    Powers();
    var b := Stored(s);
    if j == 8 {
      assert b[8] == Low(Joined(s, 3, 1));
    } else if j == 9 {
      assert b[9] == Low(Joined(s, 3, 9));
    } else if j == 10 {
      assert b[10] == Low(Joined(s, 3, 17));
    } else if j == 11 {
      assert b[11] == Low(Joined(s, 4, 4));
    } else if j == 12 {
      assert b[12] == Low(Joined(s, 4, 12));
    } else if j == 13 {
      assert b[13] == Low(Joined(s, 4, 20));
    } else if j == 14 {
      assert b[14] == Low(Joined(s, 5, 7));
    } else {
      assert b[15] == Low(Joined(s, 5, 15));
    }
  }

  lemma StoredJoined16(s: seq<int>, j: nat)
    requires |s| == 12 && 16 <= j < 24
    ensures Stored(s)[j] == Low(Joined(s, 8 * j / 21, 8 * j % 21))
  {
    hide Low, Pow2;
    Powers();
    var b := Stored(s);
    if j == 16 {
      assert b[16] == Low(Joined(s, 6, 2));
    } else if j == 17 {
      assert b[17] == Low(Joined(s, 6, 10));
    } else if j == 18 {
      assert b[18] == Low(Joined(s, 6, 18));
    } else if j == 19 {
      assert b[19] == Low(Joined(s, 7, 5));
    } else if j == 20 {
      assert b[20] == Low(Joined(s, 7, 13));
    } else if j == 21 {
      assert b[21] == Low(Joined(s, 8, 0));
    } else if j == 22 {
      assert b[22] == Low(Joined(s, 8, 8));
    } else {
      assert b[23] == Low(Joined(s, 8, 16));
    }
  }

  lemma StoredJoined24(s: seq<int>, j: nat)
    requires |s| == 12 && 24 <= j < 32
    ensures Stored(s)[j] == Low(Joined(s, 8 * j / 21, 8 * j % 21))
  {
    hide Low, Pow2;
    Powers();
    var b := Stored(s);
    if j == 24 {
      assert b[24] == Low(Joined(s, 9, 3));
    } else if j == 25 {
      assert b[25] == Low(Joined(s, 9, 11));
    } else if j == 26 {
      assert b[26] == Low(Joined(s, 9, 19));
    } else if j == 27 {
      assert b[27] == Low(Joined(s, 10, 6));
    } else if j == 28 {
      assert b[28] == Low(Joined(s, 10, 14));
    } else if j == 29 {
      assert b[29] == Low(Joined(s, 11, 1));
    } else if j == 30 {
      assert b[30] == Low(Joined(s, 11, 9));
    } else {
      assert b[31] == Low(Joined(s, 11, 17));
    }
  }

  lemma StoredJoined(s: seq<int>, j: nat)
    requires |s| == 12 && j < 32
    ensures Stored(s)[j] == Low(Joined(s, 8 * j / 21, 8 * j % 21))
  {
    hide Low, Stored, Joined;
    if j < 8 {
      StoredJoined0(s, j);
    } else if j < 16 {
      StoredJoined8(s, j);
    } else if j < 24 {
      StoredJoined16(s, j);
    } else {
      StoredJoined24(s, j);
    }
  }

  lemma StoredDigit(s: seq<int>, j: nat)
    requires Normal(s) && j < 32
    ensures Stored(s)[j] == Value(s) / Pow2(8 * j) % 256
  {
    hide Stored, Value, Pow2;
    StoredJoined(s, j);
    BitsAbove(s, 8 * j / 21, 8 * j % 21);
  }

  lemma {:induction false} WIsPow2(n: nat)
    ensures W(n) == Pow2(21 * n)
  {
    if n > 0 {
      WIsPow2(n - 1);
      assert 21 * n == 21 + 21 * (n - 1);
      Pow2Of21();
      hide Pow2;
      Pow2Add(21, 21 * (n - 1));
    }
  }

  lemma ValueBelow(s: seq<int>)
    requires Normal(s)
    ensures 0 <= Value(s) < Pow2(253) < Pow2(256)
  {
    ValueBelow2(s);
    WIsPow2(12);
    Weight12();
    assert Pow2(3) == 8 && Pow2(1) == 2;
    hide Pow2, Value, W;
    Pow2Add(252, 1);
    Pow2Add(253, 3);
  }

  lemma ValueBelow2(s: seq<int>)
    requires Normal(s)
    ensures 0 <= Value(s) < 2 * T252
  {
    assert Value(s[11..]) == s[11];
    hide Value, W;
    Split(s, 11);
    NormalValue(s[..11]);
    Weight12();
  }

  // ------------------------------------------------------------ multiplication

  /** The schoolbook product plus c, limb by limb as sc_muladd writes it. */
  function Product(a: seq<int>, b: seq<int>, c: seq<int>): (s: seq<int>)
    requires |a| == |b| == |c| == 12
    ensures |s| == 24
  {
    [c[0] + a[0] * b[0],
     c[1] + a[0] * b[1] + a[1] * b[0],
     c[2] + a[0] * b[2] + a[1] * b[1] + a[2] * b[0],
     c[3] + a[0] * b[3] + a[1] * b[2] + a[2] * b[1] + a[3] * b[0],
     c[4] + a[0] * b[4] + a[1] * b[3] + a[2] * b[2] + a[3] * b[1] + a[4] * b[0],
     c[5] + a[0] * b[5] + a[1] * b[4] + a[2] * b[3] + a[3] * b[2] + a[4] * b[1] + a[5] * b[0],
     c[6] + a[0] * b[6] + a[1] * b[5] + a[2] * b[4] + a[3] * b[3] + a[4] * b[2] + a[5] * b[1] + a[6] * b[0],
     c[7] + a[0] * b[7] + a[1] * b[6] + a[2] * b[5] + a[3] * b[4] + a[4] * b[3] + a[5] * b[2]
       + a[6] * b[1] + a[7] * b[0],
     c[8] + a[0] * b[8] + a[1] * b[7] + a[2] * b[6] + a[3] * b[5] + a[4] * b[4] + a[5] * b[3]
       + a[6] * b[2] + a[7] * b[1] + a[8] * b[0],
     c[9] + a[0] * b[9] + a[1] * b[8] + a[2] * b[7] + a[3] * b[6] + a[4] * b[5] + a[5] * b[4]
       + a[6] * b[3] + a[7] * b[2] + a[8] * b[1] + a[9] * b[0],
     c[10] + a[0] * b[10] + a[1] * b[9] + a[2] * b[8] + a[3] * b[7] + a[4] * b[6] + a[5] * b[5]
       + a[6] * b[4] + a[7] * b[3] + a[8] * b[2] + a[9] * b[1] + a[10] * b[0],
     c[11] + a[0] * b[11] + a[1] * b[10] + a[2] * b[9] + a[3] * b[8] + a[4] * b[7] + a[5] * b[6]
       + a[6] * b[5] + a[7] * b[4] + a[8] * b[3] + a[9] * b[2] + a[10] * b[1] + a[11] * b[0],
     a[1] * b[11] + a[2] * b[10] + a[3] * b[9] + a[4] * b[8] + a[5] * b[7] + a[6] * b[6] + a[7] * b[5]
       + a[8] * b[4] + a[9] * b[3] + a[10] * b[2] + a[11] * b[1],
     a[2] * b[11] + a[3] * b[10] + a[4] * b[9] + a[5] * b[8] + a[6] * b[7] + a[7] * b[6] + a[8] * b[5]
       + a[9] * b[4] + a[10] * b[3] + a[11] * b[2],
     a[3] * b[11] + a[4] * b[10] + a[5] * b[9] + a[6] * b[8] + a[7] * b[7] + a[8] * b[6] + a[9] * b[5]
       + a[10] * b[4] + a[11] * b[3],
     a[4] * b[11] + a[5] * b[10] + a[6] * b[9] + a[7] * b[8] + a[8] * b[7] + a[9] * b[6] + a[10] * b[5] + a[11] * b[4],
     a[5] * b[11] + a[6] * b[10] + a[7] * b[9] + a[8] * b[8] + a[9] * b[7] + a[10] * b[6] + a[11] * b[5],
     a[6] * b[11] + a[7] * b[10] + a[8] * b[9] + a[9] * b[8] + a[10] * b[7] + a[11] * b[6],
     a[7] * b[11] + a[8] * b[10] + a[9] * b[9] + a[10] * b[8] + a[11] * b[7],
     a[8] * b[11] + a[9] * b[10] + a[10] * b[9] + a[11] * b[8],
     a[9] * b[11] + a[10] * b[10] + a[11] * b[9],
     a[10] * b[11] + a[11] * b[10],
     a[11] * b[11],
     0]
  }

  /** The terms a[i] b[k-i] with i < n. */
  function Dot(a: seq<int>, b: seq<int>, k: nat, n: nat): int
    requires |a| == |b| == 12 && n <= 12
    decreases n
  {
    if n == 0 then 0
    else Dot(a, b, k, n - 1) + if 0 <= k - (n - 1) < 12 then a[n - 1] * b[k - (n - 1)] else 0
  }

  lemma ProductAt(a: seq<int>, b: seq<int>, c: seq<int>, k: nat)
    requires |a| == |b| == |c| == 12 && k < 24
    ensures Product(a, b, c)[k] == (if k < 12 then c[k] else 0) + Dot(a, b, k, 12)
  {
    hide Product, Dot;
    if k < 3 {
      ProductAt0(a, b, c, k);
    } else if k < 6 {
      ProductAt3(a, b, c, k);
    } else if k < 9 {
      ProductAt6(a, b, c, k);
    } else if k < 12 {
      ProductAt9(a, b, c, k);
    } else if k < 15 {
      ProductAt12(a, b, c, k);
    } else {
      ProductAt15(a, b, c, k);
    }
  }

  lemma ProductAt0(a: seq<int>, b: seq<int>, c: seq<int>, k: nat)
    requires |a| == |b| == |c| == 12 && 0 <= k < 3
    ensures Product(a, b, c)[k] == (if k < 12 then c[k] else 0) + Dot(a, b, k, 12)
  {
    if k == 0 {} else if k == 1 {} else {}
  }

  lemma ProductAt3(a: seq<int>, b: seq<int>, c: seq<int>, k: nat)
    requires |a| == |b| == |c| == 12 && 3 <= k < 6
    ensures Product(a, b, c)[k] == (if k < 12 then c[k] else 0) + Dot(a, b, k, 12)
  {
    if k == 3 {} else if k == 4 {} else {}
  }

  lemma ProductAt6(a: seq<int>, b: seq<int>, c: seq<int>, k: nat)
    requires |a| == |b| == |c| == 12 && 6 <= k < 9
    ensures Product(a, b, c)[k] == (if k < 12 then c[k] else 0) + Dot(a, b, k, 12)
  {
    if k == 6 {} else if k == 7 {} else {}
  }

  lemma ProductAt9(a: seq<int>, b: seq<int>, c: seq<int>, k: nat)
    requires |a| == |b| == |c| == 12 && 9 <= k < 12
    ensures Product(a, b, c)[k] == (if k < 12 then c[k] else 0) + Dot(a, b, k, 12)
  {
    if k == 9 {} else if k == 10 {} else {}
  }

  lemma ProductAt12(a: seq<int>, b: seq<int>, c: seq<int>, k: nat)
    requires |a| == |b| == |c| == 12 && 12 <= k < 15
    ensures Product(a, b, c)[k] == Dot(a, b, k, 12)
  {
    if k == 12 {} else if k == 13 {} else {}
  }

  lemma ProductAt15(a: seq<int>, b: seq<int>, c: seq<int>, k: nat)
    requires |a| == |b| == |c| == 12 && 15 <= k < 24
    ensures Product(a, b, c)[k] == Dot(a, b, k, 12)
  {
    if k < 19 {
      if k == 15 {} else if k == 16 {} else if k == 17 {} else {}
    } else {
      if k == 19 {} else if k == 20 {} else if k == 21 {} else if k == 22 {} else {}
    }
  }

  /** c plus the first n rows of the product. */
  ghost function Rows(a: seq<int>, b: seq<int>, c: seq<int>, n: nat): (s: seq<int>)
    requires |a| == |b| == |c| == 12 && n <= 12
    ensures |s| == 24
  {
    seq(24, k requires 0 <= k < 24 => (if k < 12 then c[k] else 0) + Dot(a, b, k, n))
  }

  /** Row i: x b, shifted up by i limbs. */
  ghost function Row(x: int, b: seq<int>, i: nat): (s: seq<int>)
    requires |b| == 12 && i < 12
    ensures |s| == 24
  {
    seq(24, k requires 0 <= k < 24 => if 0 <= k - i < 12 then x * b[k - i] else 0)
  }

  lemma {:induction false} ValueSum(s: seq<int>, t: seq<int>, u: seq<int>)
    requires |s| == |t| == |u| && forall k :: 0 <= k < |s| ==> u[k] == s[k] + t[k]
    ensures Value(u) == Value(s) + Value(t)
  {
    if |s| > 0 {
      ValueSum(s[1..], t[1..], u[1..]);
    }
  }

  lemma {:induction false} ValueScale(x: int, s: seq<int>, t: seq<int>)
    requires |s| == |t| && forall k :: 0 <= k < |s| ==> t[k] == x * s[k]
    ensures Value(t) == x * Value(s)
  {
    if |s| > 0 {
      ValueScale(x, s[1..], t[1..]);
      assert x * (R * Value(s[1..])) == R * (x * Value(s[1..]));
    }
  }

  lemma RowValue(x: int, b: seq<int>, i: nat)
    requires |b| == 12 && i < 12
    ensures Value(Row(x, b, i)) == W(i) * (x * Value(b))
  {
    var r := Row(x, b, i);
    Split(r, i);
    ZeroValue(r[..i]);
    var t := r[i..];
    Split(t, 12);
    ZeroValue(t[12..]);
    ValueScale(x, b, t[..12]);
    assert W(12) * 0 == 0;
  }

  lemma {:induction false} RowsValue(a: seq<int>, b: seq<int>, c: seq<int>, n: nat)
    requires |a| == |b| == |c| == 12 && n <= 12
    ensures Value(Rows(a, b, c, n)) == Value(c) + Value(a[..n]) * Value(b)
  {
    if n == 0 {
      var r := Rows(a, b, c, 0);
      Split(r, 12);
      assert r[..12] == c;
      ZeroValue(r[12..]);
      assert W(12) * 0 == 0;
    } else {
      RowsValue(a, b, c, n - 1);
      var r, q, t := Rows(a, b, c, n), Rows(a, b, c, n - 1), Row(a[n - 1], b, n - 1);
      ValueSum(q, t, r);
      RowValue(a[n - 1], b, n - 1);
      Split(a[..n], n - 1);
      assert a[..n][..n - 1] == a[..n - 1] && a[..n][n - 1..] == [a[n - 1]];
      assert Value([a[n - 1]]) == a[n - 1];
      Distribute(Value(a[..n - 1]), W(n - 1), a[n - 1], Value(b));
    }
  }

  lemma Distribute(u: int, w: int, x: int, v: int)
    ensures (u + w * x) * v == u * v + w * (x * v)
  {
  }

  /** Limb k of h collects c[k] and every product of limbs whose weight falls on it. */
  ghost predicate Collects(h: seq<int>, a: seq<int>, b: seq<int>, c: seq<int>)
    requires |a| == |b| == |c| == 12
  {
    |h| == 24 && forall k :: 0 <= k < 24 ==> h[k] == (if k < 12 then c[k] else 0) + Dot(a, b, k, |a|)
  }

  lemma ProductCollects(a: seq<int>, b: seq<int>, c: seq<int>)
    requires |a| == |b| == |c| == 12
    ensures Collects(Product(a, b, c), a, b, c)
  {
    hide Dot, Product;
    forall k | 0 <= k < 24
      ensures Product(a, b, c)[k] == (if k < 12 then c[k] else 0) + Dot(a, b, k, |a|)
    {
      ProductAt(a, b, c, k);
    }
  }

  /** The collected limbs are worth a b + c. */
  lemma ProductValue(h: seq<int>, a: seq<int>, b: seq<int>, c: seq<int>)
    requires |a| == |b| == |c| == 12 && Collects(h, a, b, c)
    ensures Value(h) == Value(a) * Value(b) + Value(c)
  {
    hide Value, Dot;
    assert h == Rows(a, b, c, 12);
    RowsValue(a, b, c, 12);
    assert a[..12] == a;
  }

  /** Twelve limbs as loaded: eleven of 21 bits and one of 25. */
  ghost predicate Loaded(a: seq<int>) {
    |a| == 12 && 0 <= a[11] < 0x200_0000 && forall i :: 0 <= i < 11 ==> 0 <= a[i] < R
  }

  lemma MulBound(x: int, y: int, p: int, q: int)
    requires 0 <= x < p && 0 <= y < q
    ensures 0 <= x * y <= p * q
  {
    assert x * y <= p * y <= p * q;
  }

  lemma {:induction false} DotBound(a: seq<int>, b: seq<int>, k: nat, n: nat)
    requires Loaded(a) && Loaded(b) && n <= 11
    ensures 0 <= Dot(a, b, k, n) <= n * 0x400_0000_0000 + if k - 11 < n then 0x4000_0000_0000 else 0
  {
    if n > 0 {
      DotBound(a, b, k, n - 1);
      var j := k - (n - 1);
      if 0 <= j < 12 {
        MulBound(a[n - 1], b[j], R, if j == 11 then 0x200_0000 else R);
      }
    }
  }

  lemma ProductBound(a: seq<int>, b: seq<int>, c: seq<int>)
    requires Loaded(a) && Loaded(b) && Loaded(c)
    ensures Bounded(Product(a, b, c), 0, 22, 0x1_0000_0000_0000)
    ensures Bounded(Product(a, b, c), 22, 23, 0x4_0000_0000_0000)
    ensures Product(a, b, c)[23] == 0
  {
    hide Product;
    forall k | 0 <= k < 23
      ensures 0 <= Product(a, b, c)[k] <= if k == 22 then 0x4_0000_0000_0000 else 0x1_0000_0000_0000
    {
      ProductAt(a, b, c, k);
      DotBound(a, b, k, 11);
      if 0 <= k - 11 {
        MulBound(a[11], b[k - 11], 0x200_0000, if k == 22 then 0x200_0000 else R);
        assert k == 22 ==> Dot(a, b, k, 11) == 0 by { if k == 22 { DotEmpty(a, b, k, 11); } }
      }
    }
    ProductAt(a, b, c, 23);
    DotEmpty(a, b, 23, 12);
  }

  lemma {:induction false} DotEmpty(a: seq<int>, b: seq<int>, k: nat, n: nat)
    requires |a| == |b| == 12 && n <= 12 && k >= n + 11
    ensures Dot(a, b, k, n) == 0
  {
    if n > 0 {
      DotEmpty(a, b, k, n - 1);
    }
  }

  /** Rounding carries out of limbs 0, 2, .., 22. */
  method CarryProductEven(s: seq<int>) returns (r: seq<int>)
    requires |s| == 24 && Bounded(s, 0, 22, 0x1_0000_0000_0000) && Bounded(s, 22, 23, 0x4_0000_0000_0000) && s[23] == 0
    ensures |r| == 24 && Bounded(r, 0, 23, 0x1_1000_0000_0000) && Bounded(r, 23, 24, 0x2100_0000)
    ensures forall i :: 0 <= i < 24 && i % 2 == 0 ==> -0x10_0000 <= r[i] <= 0x10_0000
    ensures Value(r) == Value(s)
  {
    hide Value, CarryRound, CarryFits;
    r := CarryProductEvenLow(s);
    r := CarryRound(r, 12);
    r := CarryRound(r, 14);
    r := CarryRound(r, 16);
    r := CarryRound(r, 18);
    r := CarryRound(r, 20);
    r := CarryRound(r, 22);
  }

  method CarryProductEvenLow(s: seq<int>) returns (r: seq<int>)
    requires |s| == 24 && Bounded(s, 0, 22, 0x1_0000_0000_0000)
    ensures |r| == 24 && Bounded(r, 0, 12, 0x1_1000_0000_0000) && forall i :: 12 <= i < 24 ==> r[i] == s[i]
    ensures forall i :: 0 <= i < 12 && i % 2 == 0 ==> -0x10_0000 <= r[i] <= 0x10_0000
    ensures Value(r) == Value(s)
  {
    hide Value, CarryRound, CarryFits;
    r := CarryRound(s, 0);
    r := CarryRound(r, 2);
    r := CarryRound(r, 4);
    r := CarryRound(r, 6);
    r := CarryRound(r, 8);
    r := CarryRound(r, 10);
  }

  /** Rounding carries out of limbs 1, 3, .., 21. */
  method CarryProductOdd(s: seq<int>) returns (r: seq<int>)
    requires |s| == 24 && Bounded(s, 0, 23, 0x1_1000_0000_0000) && Bounded(s, 23, 24, 0x2100_0000)
    requires forall i :: 0 <= i < 24 && i % 2 == 0 ==> -0x10_0000 <= s[i] <= 0x10_0000
    ensures |r| == 24 && Bounded(r, 0, 24, 0x4000_0000)
    ensures Value(r) == Value(s)
  {
    hide Value, CarryRound, CarryFits;
    r := CarryProductOddLow(s);
    r := CarryRound(r, 13);
    r := CarryRound(r, 15);
    r := CarryRound(r, 17);
    r := CarryRound(r, 19);
    r := CarryRound(r, 21);
  }

  method CarryProductOddLow(s: seq<int>) returns (r: seq<int>)
    requires |s| == 24 && Bounded(s, 0, 23, 0x1_1000_0000_0000) && Bounded(s, 23, 24, 0x2100_0000)
    requires forall i :: 0 <= i < 24 && i % 2 == 0 ==> -0x10_0000 <= s[i] <= 0x10_0000
    ensures |r| == 24 && Bounded(r, 0, 13, 0x2000_0000)
    ensures forall i :: 13 <= i < 24 ==> r[i] == s[i]
    ensures Value(r) == Value(s)
  {
    hide Value, CarryRound, CarryFits;
    r := CarryRound(s, 1);
    r := CarryRound(r, 3);
    r := CarryRound(r, 5);
    r := CarryRound(r, 7);
    r := CarryRound(r, 9);
    r := CarryRound(r, 11);
  }

  // ---------------------------------------------------------------- interface

  /** b[o], b[o+1], .. := bytes. */
  method StoreBytes(b: array<Byte>, o: nat, bytes: seq<Byte>)
    requires o + |bytes| <= b.Length
    modifies b
    ensures b[..] == old(b[..o]) + bytes + old(b[o + |bytes|..])
  {
    forall j | 0 <= j < |bytes| {
      b[o + j] := bytes[j];
    }
  }

  /** The first 32 bytes become the whole 64-byte value modulo L; the rest stay. */
  method ScReduce(s: array<Byte>)
    requires s.Length == 64
    modifies s
    ensures BytesValue(s[..32]) == BytesValue(old(s[..])) % L
    ensures s[32..] == old(s[32..])
  {
    hide Value, BytesValue, Bounded;
    ghost var input := s[..];
    var h := Limbs64(s[..]);
    Limbs64Value(input);
    assert Bounded(h, 0, 24, 0x4000_0000) by { hide Limbs64; BoundedIntro(h); }
    var r := Reduce(h);
    StoredValue(r[..12]);
    StoreBytes(s, 0, Stored(r[..12]));
    assert s[..32] == Stored(r[..12]);
    assert s[32..] == input[32..];
  }

  lemma BoundedIntro(h: seq<int>)
    requires |h| == 24 && 0 <= h[23] < 0x2000_0000 && forall i :: 0 <= i < 23 ==> 0 <= h[i] < R
    ensures Bounded(h, 0, 24, 0x4000_0000)
  {
  }

  /** s[o..o+32] becomes (a b + c) mod L. The result may overlap any argument. */
  method ScMulAdd(s: array<Byte>, o: nat, a: seq<Byte>, b: seq<Byte>, c: seq<Byte>)
    requires |a| == |b| == |c| == 32 && o + 32 <= s.Length
    modifies s
    ensures BytesValue(s[o..o + 32]) == (BytesValue(a) * BytesValue(b) + BytesValue(c)) % L
    ensures s[..o] == old(s[..o]) && s[o + 32..] == old(s[o + 32..])
  {
    hide Value, BytesValue, Bounded, Product, Limbs32, Collects;
    var x, y, z := Limbs32(a), Limbs32(b), Limbs32(c);
    Limbs32Value(a);
    Limbs32Value(b);
    Limbs32Value(c);
    var p := Product(x, y, z);
    ProductCollects(x, y, z);
    ProductValue(p, x, y, z);
    ProductBound(x, y, z);
    var q := CarryProductEven(p);
    q := CarryProductOdd(q);
    var r := Reduce(q);
    StoredValue(r[..12]);
    StoreBytes(s, o, Stored(r[..12]));
    assert s[o..o + 32] == Stored(r[..12]);
  }
}
