/** Externals/ed25519: key pairs, signatures, scalar addition and key exchange, over an assumed
    curve group, point coding and hash. */
module Ed25519 {
  import opened Radix
  import opened AbelianGroups
  import opened ScalarField
  import opened ScalarMult

  datatype Option<+T> = None | Some(value: T)

  /** Everything the model takes as given: the group law, the base point B with its precomputed
      tables, point encoding, decoding to the negated point, and SHA-512. */
  datatype Curve<!P> = Curve(
    group: Group<P>, B: P, base: seq<seq<P>>, Bi: seq<P>,
    encode: P -> seq<Byte>, decodeNegated: seq<Byte> -> Option<P>,
    hash: seq<Byte> -> seq<Byte>)

  ghost predicate Assumed<P(!new)>(c: Curve<P>) {
    && Laws(c.group)
    && BaseTable(c.group, c.base, c.B) && OddMultiples(c.group, c.Bi, c.B)
    && Mul(c.group, L, c.B) == c.group.zero
    && (forall p :: |c.encode(p)| == 32 && c.decodeNegated(c.encode(p)) == Some(c.group.neg(p)))
    && forall m :: |c.hash(m)| == 64
  }

  /** The first 32 bytes of a byte string as a scalar. */
  ghost function Scalar(b: seq<Byte>): nat
    requires |b| >= 32
  {
    BytesValue(b[..32])
  }

  lemma GroupFacts<P(!new)>(c: Curve<P>)
    requires Assumed(c)
    ensures Laws(c.group) && Mul(c.group, L, c.B) == c.group.zero
  {
  }

  lemma DecodesBack<P(!new)>(c: Curve<P>, p: P)
    requires Assumed(c)
    ensures |c.encode(p)| == 32 && c.decodeNegated(c.encode(p)) == Some(c.group.neg(p))
  {
  }

  // ------------------------------------------------------------------- sizes

  /** A 32-byte string worth less than 2^253 ends in a byte below 32, and conversely. */
  lemma TopByte(b: seq<Byte>)
    requires |b| == 32
    ensures b[31] < 32 <==> BytesValue(b) < Pow2(253)
    ensures b[31] <= 127 <==> BytesValue(b) < Pow2(255)
  {
    hide BytesValue, Pow2;
    BytesSnoc(b, 31);
    assert b[..32] == b && |b[..31]| == 31;
    BytesBound(b[..31]);
    assert 8 * 31 == 248;
    Pow2Add(248, 5);
    Pow2Add(248, 7);
    SmallPow2(5);
    Pow2Add(5, 2);
    SmallPow2(2);
    TopDigit(BytesValue(b[..31]), b[31], Pow2(248), 32);
    TopDigit(BytesValue(b[..31]), b[31], Pow2(248), 128);
  }

  lemma TopDigit(lo: nat, x: int, w: nat, k: int)
    requires lo < w
    ensures x < k <==> lo + x * w < k * w
  {
    if x < k {
      MulAtLeast(w, k - x);
      assert w * (k - x) == k * w - x * w;
    } else if x > k {
      MulAtLeast(w, x - k);
      assert w * (x - k) == x * w - k * w;
    }
  }

  lemma OrderBelow()
    ensures L < Pow2(253) < Pow2(255)
  {
    WIsPow2(12);
    Weight12();
    assert Pow2(1) == 2 && Pow2(2) == 4;
    hide Pow2, W;
    Pow2Add(252, 1);
    Pow2Add(253, 2);
  }

  lemma ReducedSmall(b: seq<Byte>)
    requires |b| == 32 && BytesValue(b) < L
    ensures b[31] < 32 && BytesValue(b) < Pow2(253) && BytesValue(b) < Pow2(255)
  {
    hide BytesValue, Pow2;
    OrderBelow();
    TopByte(b);
  }

  // ---------------------------------------------------------------- key pairs

  /** private_key[0] &= 248; private_key[31] &= 63; private_key[31] |= 64. */
  function Clamp(b: seq<Byte>): (r: seq<Byte>)
    requires |b| >= 32
    ensures |r| == |b|
  {
    b[0 := b[0] - b[0] % 8][31 := b[31] % 64 + 64]
  }

  lemma ClampAgain(b: seq<Byte>)
    requires |b| >= 32
    ensures Clamp(b)[31] <= 127 && Clamp(Clamp(b)) == Clamp(b)
  {
  }

  /** A clamped scalar is a multiple of 8 in [2^254, 2^255). */
  lemma ClampedScalar(b: seq<Byte>)
    requires |b| >= 32
    ensures Scalar(Clamp(b)) % 8 == 0 && Pow2(254) <= Scalar(Clamp(b)) < Pow2(255)
  {
    var k := Clamp(b)[..32];
    ClampedLow(k);
    hide BytesValue, Pow2;
    ClampedTop(k);
  }

  lemma ClampedLow(k: seq<Byte>)
    requires |k| == 32 && k[0] % 8 == 0
    ensures BytesValue(k) % 8 == 0
  {
    var y := BytesValue(k[1..]);
    assert BytesValue(k) == k[0] + 8 * (32 * y);
  }

  lemma ClampedTop(k: seq<Byte>)
    requires |k| == 32 && 64 <= k[31] <= 127
    ensures Pow2(254) <= BytesValue(k) < Pow2(255)
  {
    hide BytesValue, Pow2;
    TopByte(k);
    BytesSnoc(k, 31);
    assert k[..32] == k && |k[..31]| == 31;
    BytesBound(k[..31]);
    Pow2Add(248, 6);
    SmallPow2(6);
    assert 8 * 31 == 248;
    TopDigit(BytesValue(k[..31]), k[31], Pow2(248), 64);
  }

  /** Byte 0, the thirty bytes after it, and byte 31. */
  lemma ThreeParts(k: seq<Byte>)
    requires |k| == 32
    ensures BytesValue(k) == k[0] + 256 * (BytesValue(k[1..31]) + k[31] * Pow2(240))
    ensures BytesValue(k[1..31]) < Pow2(240)
  {
    assert BytesValue(k) == k[0] + 256 * BytesValue(k[1..]);
    hide BytesValue, Pow2;
    BytesSnoc(k[1..], 30);
    assert k[1..][..30] == k[1..31] && k[1..][..31] == k[1..];
    BytesBound(k[1..31]);
    assert 8 * 30 == 240;
  }

  /** mid and the digit above it, cut to the t low bits of the digit. */
  lemma CutTop(mid: nat, top: nat, w: nat, t: nat)
    requires mid < w && t > 0
    ensures t * w > 0 && (mid + top * w) % (t * w) == mid + top % t * w
  {
    var q, r := top / t, top % t;
    assert top * w == t * w * q + r * w by {
      assert top == t * q + r;
      assert t * q * w == t * w * q;
    }
    assert mid + r * w < t * w by {
      MulAtLeast(w, t - r);
      assert w * (t - r) == t * w - r * w;
    }
    MulAtLeast(w, t);
    QuotientIs(mid + top * w, t * w, q, mid + r * w);
  }

  /** A byte and what lies above it, cut at a multiple of 256, and the same without the three lowest bits. */
  lemma CutRest(low: Byte, rest: nat, m: nat)
    requires m > 0
    ensures (low + 256 * rest) % (256 * m) == low + 256 * (rest % m)
    ensures (low + 256 * rest) / 8 % (32 * m) == low / 8 + 32 * (rest % m)
  {
    var q, r := rest / m, rest % m;
    assert rest == m * q + r;
    assert 256 * rest == 256 * m * q + 256 * r && 32 * rest == 32 * m * q + 32 * r;
    QuotientIs(low + 256 * rest, 8, low / 8 + 32 * rest, low % 8);
    QuotientIs(low + 256 * rest, 256 * m, q, low + 256 * r);
    QuotientIs(low / 8 + 32 * rest, 32 * m, q, low / 8 + 32 * r);
  }

  lemma HighPowers()
    ensures Pow2(251) == 32 * (64 * Pow2(240)) && Pow2(254) == 256 * (64 * Pow2(240))
    ensures Pow2(255) == 256 * (128 * Pow2(240))
  {
    Pow2Is11();
    hide Pow2;
    Pow2Add(11, 240);
    Pow2Add(3, 251);
    Pow2Double(254);
  }

  lemma Pow2Is11()
    ensures Pow2(11) == 2048 && Pow2(3) == 8
  {
  }

  /** Clamping keeps bits 3 to 253 of the scalar, sets bit 254, clears the others, and leaves the rest of the key. */
  lemma ClampIs(b: seq<Byte>)
    requires |b| >= 32
    ensures Scalar(Clamp(b)) == Pow2(254) + 8 * (Scalar(b) / 8 % Pow2(251)) && Clamp(b)[32..] == b[32..]
  {
    hide BytesValue, Pow2, Clamp;
    ClampBytes(b);
    var k, k' := b[..32], Clamp(b)[..32];
    ThreeParts(k);
    ThreeParts(k');
    HighPowers();
    ClampParts(Scalar(b), k[0], BytesValue(k[1..31]), k[31], Pow2(240));
  }

  lemma ClampBytes(b: seq<Byte>)
    requires |b| >= 32
    ensures var k, k' := b[..32], Clamp(b)[..32];
      k'[0] == k[0] - k[0] % 8 && k'[31] == k[31] % 64 + 64 && k'[1..31] == k[1..31] && Clamp(b)[32..] == b[32..]
  {
  }

  lemma ClampParts(v: nat, low: Byte, mid: nat, top: Byte, w: nat)
    requires mid < w && v == low + 256 * (mid + top * w)
    ensures low - low % 8 + 256 * (mid + (top % 64 + 64) * w) == 256 * (64 * w) + 8 * (v / 8 % (32 * (64 * w)))
  {
    CutTop(mid, top, w, 64);
    CutRest(low, mid + top * w, 64 * w);
    var bits := top % 64;
    assert (bits + 64) * w == bits * w + 64 * w;
  }

  ghost predicate IsKeyPair<P(!new)>(c: Curve<P>, seed: seq<Byte>, pk: seq<Byte>, sk: seq<Byte>)
    requires Assumed(c)
  {
    && sk == Clamp(c.hash(seed))
    && pk == c.encode(Mul(c.group, Scalar(sk), c.B))
  }

  /** ed25519_create_keypair. */
  method CreateKeyPair<P(!new)>(c: Curve<P>, publicKey: array<Byte>, privateKey: array<Byte>, seed: seq<Byte>)
    requires Assumed(c) && publicKey.Length == 32 && privateKey.Length == 64 && publicKey != privateKey && |seed| == 32
    modifies publicKey, privateKey
    ensures IsKeyPair(c, seed, publicKey[..], privateKey[..])
  {
    hide BytesValue, Laws, Mul, BaseTable, OddMultiples, Pow2;
    StoreBytes(privateKey, 0, c.hash(seed));
    assert privateKey[..] == c.hash(seed);
    privateKey[0] := privateKey[0] - privateKey[0] % 8;
    privateKey[31] := privateKey[31] % 64;
    privateKey[31] := privateKey[31] + 64;
    assert privateKey[..] == Clamp(c.hash(seed));
    var A := ScalarMultBase(c.group, c.base, privateKey[..32], c.B);
    assert privateKey[..32] == privateKey[..][..32];
    StoreBytes(publicKey, 0, c.encode(A));
    assert publicKey[..] == c.encode(A);
  }

  // --------------------------------------------------------------- signatures

  /** The secret nonce and the challenge, both reduced modulo L. */
  ghost function Nonce<P>(c: Curve<P>, sk: seq<Byte>, message: seq<Byte>): int
    requires |sk| == 64
  {
    BytesValue(c.hash(sk[32..] + message)) % L
  }

  ghost function Challenge<P>(c: Curve<P>, r: seq<Byte>, pk: seq<Byte>, message: seq<Byte>): int {
    BytesValue(c.hash(r + pk + message)) % L
  }

  /** RFC 8032, section 5.1.6: R = r B, S = (h a + r) mod L. */
  ghost predicate IsSignature<P(!new)>(c: Curve<P>, sig: seq<Byte>, message: seq<Byte>, pk: seq<Byte>, sk: seq<Byte>)
    requires |sk| == 64
  {
    && |sig| == 64
    && sig[..32] == c.encode(Mul(c.group, Nonce(c, sk, message), c.B))
    && BytesValue(sig[32..]) == (Challenge(c, sig[..32], pk, message) * Scalar(sk) + Nonce(c, sk, message)) % L
  }

  /** RFC 8032, section 5.1.7, in the form the code checks it: S below 2^253, the key decodes, and
      R is the encoding of h (-A) + S B. */
  ghost predicate Accepts<P(!new)>(c: Curve<P>, sig: seq<Byte>, message: seq<Byte>, pk: seq<Byte>)
    requires |sig| == 64
  {
    && BytesValue(sig[32..]) < Pow2(253)
    && c.decodeNegated(pk).Some?
    && c.encode(Combination(c.group, Challenge(c, sig[..32], pk, message), c.decodeNegated(pk).value,
                            BytesValue(sig[32..]), c.B)) == sig[..32]
  }

  /** sha512 followed by sc_reduce: the reduced scalar in 32 bytes. */
  method HashToScalar<P(!new)>(c: Curve<P>, m: seq<Byte>) returns (s: seq<Byte>)
    requires Assumed(c)
    ensures |s| == 32 && BytesValue(s) == BytesValue(c.hash(m)) % L
    ensures s[31] < 32 && BytesValue(s) < Pow2(255)
  {
    hide BytesValue, Laws, Mul, BaseTable, OddMultiples, Pow2;
    var b := new Byte[64](i => 0);
    StoreBytes(b, 0, c.hash(m));
    assert b[..] == c.hash(m);
    ScReduce(b);
    s := b[..32];
    ReducedSmall(s);
  }

  /** ed25519_sign. */
  method Sign<P(!new)>(c: Curve<P>, signature: array<Byte>, message: seq<Byte>, publicKey: seq<Byte>,
      privateKey: seq<Byte>)
    requires Assumed(c) && signature.Length == 64 && |publicKey| == 32 && |privateKey| == 64
    modifies signature
    ensures IsSignature(c, signature[..], message, publicKey, privateKey)
    ensures var r := BytesValue(c.hash(privateKey[32..64] + message)) % L;
            var k := BytesValue(c.hash(signature[0..32] + publicKey + message)) % L;
            && signature[0..32] == c.encode(Mul(c.group, r, c.B))
            && BytesValue(signature[32..64]) == (k * BytesValue(privateKey[0..32]) + r) % L
  {
    hide BytesValue, Laws, Mul, BaseTable, OddMultiples, Pow2;
    var r := HashToScalar(c, privateKey[32..] + message);
    var R := ScalarMultBase(c.group, c.base, r, c.B);
    StoreBytes(signature, 0, c.encode(R));
    var encoded := signature[..32];
    assert encoded == c.encode(R);
    var hram := HashToScalar(c, encoded + publicKey + message);
    ScMulAdd(signature, 32, hram, privateKey[..32], r);
    assert signature[..][..32] == signature[0..32] == encoded;
    assert signature[..][32..] == signature[32..64];
    assert privateKey[32..] == privateKey[32..64] && privateKey[..32] == privateKey[0..32];
  }

  /** Bitwise x ^ y and x | y on the low n bits. */
  function Xor(x: nat, y: nat, n: nat): nat {
    if n == 0 then 0 else (x % 2 + y % 2) % 2 + 2 * Xor(x / 2, y / 2, n - 1)
  }

  function Or(x: nat, y: nat, n: nat): nat {
    if n == 0 then 0 else (if x % 2 + y % 2 == 0 then 0 else 1) + 2 * Or(x / 2, y / 2, n - 1)
  }

  lemma {:induction false} XorZero(x: nat, y: nat, n: nat)
    requires x < Pow2(n) && y < Pow2(n)
    ensures Xor(x, y, n) < Pow2(n) && (Xor(x, y, n) == 0 <==> x == y)
  {
    if n > 0 {
      XorZero(x / 2, y / 2, n - 1);
    }
  }

  lemma {:induction false} OrZero(x: nat, y: nat, n: nat)
    requires x < Pow2(n) && y < Pow2(n)
    ensures Or(x, y, n) < Pow2(n) && (Or(x, y, n) == 0 <==> x == 0 && y == 0)
  {
    if n > 0 {
      OrZero(x / 2, y / 2, n - 1);
    }
  }

  /** consttime_equal: no byte differs. */
  method ConsttimeEqual(x: seq<Byte>, y: seq<Byte>) returns (equal: bool)
    requires |x| == |y| == 32
    ensures equal <==> x == y
  {
    hide Xor, Or;
    Pow2Of8();
    var r := 0;
    for i := 0 to 32
      invariant 0 <= r < 256
      invariant r == 0 <==> x[..i] == y[..i]
    {
      var d := Xor(x[i], y[i], 8);
      XorZero(x[i], y[i], 8);
      OrZero(r, d, 8);
      r := Or(r, d, 8);
      assert x[..i + 1] == x[..i] + [x[i]] && y[..i + 1] == y[..i] + [y[i]];
    }
    assert x[..32] == x && y[..32] == y;
    equal := r == 0;
  }

  /** ed25519_verify. */
  method Verify<P(!new)>(c: Curve<P>, signature: seq<Byte>, message: seq<Byte>, publicKey: seq<Byte>) returns (ok: bool)
    requires Assumed(c) && |signature| == 64 && |publicKey| == 32
    ensures ok <==> Accepts(c, signature, message, publicKey)
    ensures var h := BytesValue(c.hash(signature[..32] + publicKey + message)) % L;
            ok <==> BytesValue(signature[32..]) < Pow2(253) && c.decodeNegated(publicKey).Some?
                    && signature[..32] == c.encode(c.group.add(Mul(c.group, h, c.decodeNegated(publicKey).value),
                                                                Mul(c.group, BytesValue(signature[32..]), c.B)))
  {
    hide BytesValue, Laws, Mul, BaseTable, OddMultiples, Pow2;
    var s := signature[32..];
    TopByte(s);
    if signature[63] / 32 != 0 {
      return false;
    }
    var A := c.decodeNegated(publicKey);
    if A == None {
      return false;
    }
    var h := HashToScalar(c, signature[..32] + publicKey + message);
    var R := DoubleScalarMult(c.group, h, A.value, s, c.B, c.Bi);
    ok := ConsttimeEqual(c.encode(R), signature[..32]);
  }

  /** Every signature made with a key and the encoding of its public point is accepted. */
  lemma SignaturesVerify<P(!new)>(c: Curve<P>, sig: seq<Byte>, message: seq<Byte>, pk: seq<Byte>, sk: seq<Byte>)
    requires Assumed(c) && |sk| == 64 && pk == c.encode(Mul(c.group, Scalar(sk), c.B))
    requires IsSignature(c, sig, message, pk, sk)
    ensures Accepts(c, sig, message, pk)
  {
    hide Assumed, Laws, Mul, BytesValue, Pow2, Combination;
    GroupFacts(c);
    DecodesBack(c, Mul(c.group, Scalar(sk), c.B));
    ReducedSmall(sig[32..]);
    VerificationEquation(c.group, c.B, Scalar(sk), Challenge(c, sig[..32], pk, message), Nonce(c, sk, message));
  }

  /** h (-a B) + ((h a + r) mod L) B = r B. */
  lemma VerificationEquation<P(!new)>(g: Group<P>, B: P, a: int, h: int, r: int)
    requires Laws(g) && Mul(g, L, B) == g.zero
    ensures Combination(g, h, g.neg(Mul(g, a, B)), (h * a + r) % L, B) == Mul(g, r, B)
  {
    hide Laws, Mul;
    MulOfNegated(g, h, Mul(g, a, B));
    MulMul(g, -h, a, B);
    MulModOrder(g, L, h * a + r, B);
    MulAdd(g, -h * a, h * a + r, B);
  }

  /** In particular for the key pairs that ed25519_create_keypair makes. */
  lemma KeyPairSignaturesVerify<P(!new)>(c: Curve<P>, seed: seq<Byte>, sig: seq<Byte>, message: seq<Byte>,
      pk: seq<Byte>, sk: seq<Byte>)
    requires Assumed(c) && IsKeyPair(c, seed, pk, sk) && IsSignature(c, sig, message, pk, sk)
    ensures Accepts(c, sig, message, pk)
  {
    hide Accepts;
    SignaturesVerify(c, sig, message, pk, sk);
  }

  /** When key and R are encodings of points, acceptance is the equation S B = R + h A. */
  lemma AcceptedEquation<P(!new)>(c: Curve<P>, sig: seq<Byte>, message: seq<Byte>, pk: seq<Byte>, A: P, R: P)
    requires Assumed(c) && |sig| == 64 && pk == c.encode(A) && sig[..32] == c.encode(R)
    ensures Accepts(c, sig, message, pk)
       <==> BytesValue(sig[32..]) < Pow2(253)
            && Mul(c.group, BytesValue(sig[32..]), c.B)
                == c.group.add(R, Mul(c.group, Challenge(c, sig[..32], pk, message), A))
  {
    hide Assumed, Laws, Mul, BytesValue, Pow2, Combination;
    var h, s := Challenge(c, sig[..32], pk, message), BytesValue(sig[32..]);
    GroupFacts(c);
    DecodesBack(c, A);
    EncodeInjective(c, Combination(c.group, h, c.group.neg(A), s, c.B), R);
    AcrossEquation(c.group, c.B, h, s, A, R);
  }

  lemma AcrossEquation<P(!new)>(g: Group<P>, B: P, h: int, s: int, A: P, R: P)
    requires Laws(g)
    ensures Combination(g, h, g.neg(A), s, B) == R <==> Mul(g, s, B) == g.add(R, Mul(g, h, A))
  {
    hide Laws, Mul;
    MulOfNegated(g, h, A);
    MulNeg(g, h, A);
    MoveAcross(g, Mul(g, h, A), Mul(g, s, B), R);
  }

  lemma MoveAcross<P(!new)>(g: Group<P>, H: P, S: P, R: P)
    requires Laws(g)
    ensures g.add(g.neg(H), S) == R <==> S == g.add(R, H)
  {
    hide Laws;
    Comm(g, g.neg(H), S);
    Cancel(g, S, H);
    Cancel(g, R, H);
  }

  lemma EncodeInjective<P(!new)>(c: Curve<P>, p: P, q: P)
    requires Assumed(c)
    ensures c.encode(p) == c.encode(q) <==> p == q
  {
    var g := c.group;
    hide Assumed, Laws, Mul;
    GroupFacts(c);
    DecodesBack(c, p);
    DecodesBack(c, q);
    if c.encode(p) == c.encode(q) {
      Inverse(g, p);
      Inverse(g, q);
      Assoc(g, p, g.neg(p), q);
      Unit(g, p);
      Unit(g, q);
    }
  }

  // ------------------------------------------------------------ scalar addition

  /** The scalar added: its top bit is cleared. */
  function Addend(scalar: seq<Byte>): (n: seq<Byte>)
    requires |scalar| == 32
    ensures |n| == 32
  {
    scalar[31 := scalar[31] % 128]
  }

  /** The scalar added is the given one modulo 2^255. */
  lemma AddendIs(scalar: seq<Byte>)
    requires |scalar| == 32
    ensures BytesValue(Addend(scalar)) == BytesValue(scalar) % Pow2(255)
  {
    var n := Addend(scalar);
    assert n[0] == scalar[0] && n[31] == scalar[31] % 128 && n[1..31] == scalar[1..31];
    ThreeParts(scalar);
    ThreeParts(n);
    HighPowers();
    hide BytesValue, Pow2, Addend;
    AddendParts(BytesValue(scalar), scalar[0], BytesValue(scalar[1..31]), scalar[31], Pow2(240));
  }

  lemma AddendParts(v: nat, low: Byte, mid: nat, top: Byte, w: nat)
    requires mid < w && v == low + 256 * (mid + top * w)
    ensures low + 256 * (mid + top % 128 * w) == v % (256 * (128 * w))
  {
    CutTop(mid, top, w, 128);
    CutRest(low, mid + top * w, 128 * w);
  }

  /** ed25519_add_scalar on a private key: a becomes (a + n) mod L, the signing secret is rehashed. */
  method AddToPrivate<P(!new)>(c: Curve<P>, privateKey: array<Byte>, scalar: seq<Byte>)
    requires Assumed(c) && privateKey.Length == 64 && |scalar| == 32
    modifies privateKey
    ensures Scalar(privateKey[..]) == (BytesValue(Addend(scalar)) + Scalar(old(privateKey[..]))) % L
    ensures privateKey[32..] == c.hash(old(privateKey[32..]) + scalar)[..32]
  {
    hide Laws, Mul, BaseTable, OddMultiples, Pow2;
    var one: seq<Byte> := [1] + seq(31, i => 0);
    OneValue(one);
    hide BytesValue;
    ghost var was := privateKey[..];
    ScMulAdd(privateKey, 0, one, Addend(scalar), privateKey[..32]);
    assert privateKey[32..] == was[32..];
    var hashbuf := c.hash(privateKey[32..] + scalar);
    ghost var low := privateKey[..32];
    StoreBytes(privateKey, 32, hashbuf[..32]);
    assert privateKey[..][..32] == low && privateKey[..32] == low && privateKey[0..0 + 32] == low;
    assert was[..32] == old(privateKey[..])[..32];
  }

  lemma OneValue(one: seq<Byte>)
    requires |one| == 32 && one[0] == 1 && forall i :: 1 <= i < 32 ==> one[i] == 0
    ensures BytesValue(one) == 1
  {
    ZeroBytes(one[1..]);
  }

  lemma {:induction false} ZeroBytes(b: seq<Byte>)
    requires forall i :: 0 <= i < |b| ==> b[i] == 0
    ensures BytesValue(b) == 0
  {
    if |b| > 0 {
      ZeroBytes(b[1..]);
    }
  }

  /** ed25519_add_scalar on a public key whose private key is known to the caller. */
  method RefreshPublic<P(!new)>(c: Curve<P>, privateKey: seq<Byte>) returns (publicKey: seq<Byte>)
    requires Assumed(c) && |privateKey| == 64 && privateKey[31] <= 127
    ensures publicKey == c.encode(Mul(c.group, Scalar(privateKey), c.B))
  {
    hide Laws, Mul, BaseTable, OddMultiples, BytesValue;
    var A := ScalarMultBase(c.group, c.base, privateKey[..32], c.B);
    publicKey := c.encode(A);
  }

  /** ed25519_add_scalar on a public key alone: A = n B + T for the decoded point T. Decoding is not
      checked; `undecoded` is whatever the point variable holds when it fails. */
  method AddToPublic<P(!new)>(c: Curve<P>, publicKey: seq<Byte>, scalar: seq<Byte>, undecoded: P) returns (r: seq<Byte>)
    requires Assumed(c) && |publicKey| == 32 && |scalar| == 32
    ensures |r| == 32
    ensures c.decodeNegated(publicKey).Some?
            ==> r == c.encode(c.group.add(Mul(c.group, BytesValue(Addend(scalar)), c.B),
                                          c.group.neg(c.decodeNegated(publicKey).value)))
  {
    hide Laws, Mul, BaseTable, OddMultiples, BytesValue;
    var unpacked := c.decodeNegated(publicKey);
    var T := c.group.neg(if unpacked.Some? then unpacked.value else undecoded);
    var nB := ScalarMultBase(c.group, c.base, Addend(scalar), c.B);
    r := c.encode(c.group.add(nB, T));
    DecodesBack(c, c.group.add(nB, T));
  }

  /** ed25519_add_scalar: either key may be missing; with both at hand the public key is made afresh
      from the private one. */
  method AddScalar<P(!new)>(c: Curve<P>, publicKey: array?<Byte>, privateKey: array?<Byte>, scalar: seq<Byte>,
      undecoded: P)
    requires Assumed(c) && |scalar| == 32
    requires publicKey != null ==> publicKey.Length == 32
    requires privateKey != null ==> privateKey.Length == 64
    modifies publicKey, privateKey
    ensures privateKey != null ==>
              && Scalar(privateKey[..]) == (BytesValue(Addend(scalar)) + Scalar(old(privateKey[..]))) % L
              && privateKey[32..] == c.hash(old(privateKey[32..]) + scalar)[..32]
    ensures publicKey != null && privateKey != null ==>
            publicKey[..] == c.encode(Mul(c.group, Scalar(privateKey[..]), c.B))
    ensures publicKey != null && privateKey == null && c.decodeNegated(old(publicKey[..])).Some? ==>
              publicKey[..] == c.encode(c.group.add(Mul(c.group, BytesValue(Addend(scalar)), c.B),
                                                    c.group.neg(c.decodeNegated(old(publicKey[..])).value)))
  {
    hide Laws, Mul, BaseTable, OddMultiples, BytesValue, Pow2, Assumed, Addend;
    if privateKey != null {
      AddToPrivate(c, privateKey, scalar);
    }
    if publicKey != null {
      var packed: seq<Byte>;
      if privateKey != null {
        AddedIsSmall(privateKey[..], BytesValue(Addend(scalar)) + Scalar(old(privateKey[..])));
        packed := RefreshPublic(c, privateKey[..]);
        DecodesBack(c, Mul(c.group, Scalar(privateKey[..]), c.B));
      } else {
        packed := AddToPublic(c, publicKey[..], scalar, undecoded);
      }
      StoreBytes(publicKey, 0, packed);
      assert publicKey[..] == packed;
    }
  }

  lemma AddedIsSmall(sk: seq<Byte>, v: int)
    requires |sk| == 64 && Scalar(sk) == v % L
    ensures sk[31] <= 127
  {
    ReducedSmall(sk[..32]);
  }

  /** Both ways of moving a public key give the same key: (a + n mod L) B encodes as n B + a B. */
  lemma AddScalarAgrees<P(!new)>(c: Curve<P>, pk: seq<Byte>, a: int, n: int)
    requires Assumed(c) && pk == c.encode(Mul(c.group, a, c.B))
    ensures c.decodeNegated(pk).Some?
    ensures c.encode(Mul(c.group, (n + a) % L, c.B))
         == c.encode(c.group.add(Mul(c.group, n, c.B), c.group.neg(c.decodeNegated(pk).value)))
  {
    hide Laws, Mul, Assumed;
    GroupFacts(c);
    DecodesBack(c, Mul(c.group, a, c.B));
    AddedScalars(c.group, c.B, a, n);
  }

  lemma AddedScalars<P(!new)>(g: Group<P>, B: P, a: int, n: int)
    requires Laws(g) && Mul(g, L, B) == g.zero
    ensures Mul(g, (n + a) % L, B) == g.add(Mul(g, n, B), g.neg(g.neg(Mul(g, a, B))))
  {
    hide Laws, Mul;
    MulNeg(g, a, B);
    MulNeg(g, -a, B);
    MulModOrder(g, L, n + a, B);
    MulAdd(g, n, a, B);
  }
}
