/** Little-endian byte strings as integers, and the shifts the C code applies to them.
    A right shift of a signed value is division rounding down; a left shift is multiplication. */
module Radix {

  type Byte = x: int | 0 <= x < 256

  function Pow2(n: nat): (p: nat)
    ensures p > 0
  {
    if n == 0 then 1 else 2 * Pow2(n - 1)
  }

  /** v without its n lowest bits. */
  function High(v: nat, n: nat): nat {
    hide Pow2;
    v / Pow2(n)
  }

  predicate FitsInt64(x: int) {
    -0x8000_0000_0000_0000 <= x < 0x8000_0000_0000_0000
  }

  predicate FitsInt32(x: int) {
    -0x8000_0000 <= x < 0x8000_0000
  }

  /** b[0] + 256 b[1] + 256^2 b[2] + ... */
  function BytesValue(b: seq<Byte>): nat {
    if |b| == 0 then 0 else b[0] + 256 * BytesValue(b[1..])
  }

  function Load3(b: seq<Byte>, i: nat): nat
    requires i + 3 <= |b|
  {
    b[i] as int + 0x100 * (b[i + 1] as int) + 0x1_0000 * (b[i + 2] as int)
  }

  function Load4(b: seq<Byte>, i: nat): nat
    requires i + 4 <= |b|
  {
    b[i] as int + 0x100 * (b[i + 1] as int) + 0x1_0000 * (b[i + 2] as int) + 0x100_0000 * (b[i + 3] as int)
  }

  lemma {:induction false} Pow2Add(a: nat, b: nat)
    ensures Pow2(a + b) == Pow2(a) * Pow2(b)
  {
    if a > 0 {
      Pow2Add(a - 1, b);
    }
  }

  lemma MulAtLeast(d: int, k: int)
    requires d >= 0 && k >= 1
    ensures d * k >= d
  {
  }

  lemma SameQuotient(d: int, q: int, r: int, q': int, r': int)
    requires d * q + r == d * q' + r' && 0 <= r < d && 0 <= r' < d
    ensures q == q'
  {
    assert d * (q - q') == d * q - d * q' && d * (q' - q) == d * q' - d * q;
    if q > q' {
      MulAtLeast(d, q - q');
    } else if q < q' {
      MulAtLeast(d, q' - q);
    }
  }

  lemma QuotientIs(x: int, d: int, q: int, r: int)
    requires x == d * q + r && 0 <= r < d
    ensures x / d == q && x % d == r
  {
    SameQuotient(d, q, r, x / d, x % d);
  }

  lemma DivDiv(x: int, a: int, b: int)
    requires a > 0 && b > 0
    ensures a * b > 0 && x / (a * b) == x / a / b
  {
    var q, r := x / a, x % a;
    var q', r' := q / b, q % b;
    var r'' := a * r' + r;
    assert a * b * q' + r'' == x by {
      assert q == b * q' + r';
      assert a * q == a * (b * q') + a * r';
      assert a * (b * q') == a * b * q';
    }
    assert 0 <= r'' < a * b by {
      MulAtLeast(a, b - r');
      assert a * (b - r') == a * b - a * r';
    }
    QuotientIs(x, a * b, q', r'');
  }

  /** Dropping whole low bytes is division by a power of two. */
  lemma {:induction false} DropBytes(b: seq<Byte>, p: nat)
    requires p <= |b|
    ensures BytesValue(b) / Pow2(8 * p) == BytesValue(b[p..])
  {
    if p == 0 {
      assert b[0..] == b;
    } else {
      DropBytes(b[1..], p - 1);
      assert b[1..][p - 1..] == b[p..];
      assert BytesValue(b) / 256 == BytesValue(b[1..]);
      Pow2Of8();
      hide Pow2, BytesValue;
      Pow2Add(8, 8 * (p - 1));
      assert 8 * p == 8 + 8 * (p - 1);
      DivDiv(BytesValue(b), 256, Pow2(8 * (p - 1)));
    }
  }

  lemma Pow2Of8()
    ensures Pow2(8) == 256
  {
  }

  lemma {:induction false} BytesBound(b: seq<Byte>)
    ensures BytesValue(b) < Pow2(8 * |b|)
  {
    if |b| > 0 {
      BytesBound(b[1..]);
      Pow2Add(8, 8 * (|b| - 1));
      assert Pow2(8) == 256;
    }
  }

  /** Two byte strings of one length and one value are equal. */
  lemma {:induction false} BytesValueInjective(a: seq<Byte>, b: seq<Byte>)
    requires |a| == |b| && BytesValue(a) == BytesValue(b)
    ensures a == b
  {
    if |a| > 0 {
      BytesValueInjective(a[1..], b[1..]);
      assert a == [a[0]] + a[1..] && b == [b[0]] + b[1..];
    }
  }

  /** The byte at position j is the digit of weight 256^j. */
  lemma {:induction false} ByteAt(b: seq<Byte>, j: nat)
    requires j < |b|
    ensures b[j] == BytesValue(b) / Pow2(8 * j) % 256
  {
    DropBytes(b, j);
    assert b[j..][0] == b[j];
  }

  /** Bytes that are the digits of a value spell that value. */
  lemma {:induction false} BytesOfDigits(b: seq<Byte>, v: nat)
    requires v < Pow2(8 * |b|)
    requires forall j :: 0 <= j < |b| ==> b[j] == v / Pow2(8 * j) % 256
    ensures BytesValue(b) == v
  {
    if |b| > 0 {
      assert Pow2(8 * 0) == 1;
      assert Pow2(8) == 256;
      Pow2Add(8, 8 * (|b| - 1));
      forall j | 0 <= j < |b| - 1
        ensures b[1..][j] == v / 256 / Pow2(8 * j) % 256
      {
        Pow2Add(8, 8 * j);
        DivDiv(v, 256, Pow2(8 * j));
        assert b[j + 1] == v / Pow2(8 * (j + 1)) % 256;
      }
      BytesOfDigits(b[1..], v / 256);
    }
  }

  lemma TakeByte(b: seq<Byte>, p: nat)
    requires p < |b|
    ensures BytesValue(b[p..]) == b[p] + 256 * BytesValue(b[p + 1..])
  {
    assert b[p..][1..] == b[p + 1..];
  }

  lemma Pow2Double(m: nat)
    ensures Pow2(m + 1) == 2 * Pow2(m)
  {
  }

  /** The two low bytes. */
  lemma WordBytes(v: nat)
    ensures v % 0x1_0000 == v % 0x100 + 0x100 * (v / 0x100 % 0x100)
  {
  }

  /** (unsigned char) x. */
  function Low(x: int): Byte {
    x % 256
  }

  /** A multiple of 256 does not show in the low byte. */
  lemma DropHighByte(x: int, q: int, k: int, v: int)
    requires q == 256 * k
    ensures (x + q * v) % 256 == x % 256
  {
    assert q * v == 256 * (k * v);
  }
}
