/**
  Ed25519 verification (RFC 8032): the double-and-add loop over any group, the signature equation,
  the point codec, and the concrete addition formula's symmetry and unit.
 */
module Ed25519 {
  import opened Wrappers

  // ----- groups

  ghost predicate Associates<P>(add: (P, P) -> P, a: P, b: P, c: P) {
    add(add(a, b), c) == add(a, add(b, c))
  }

  ghost predicate Monoid<P(!new)>(add: (P, P) -> P, id: P) {
    && (forall a, b, c :: Associates(add, a, b, c))
    && (forall a :: add(id, a) == a && add(a, id) == a)
  }

  /** n-fold addition. */
  function Times<P>(add: (P, P) -> P, id: P, p: P, n: nat): P {
    if n == 0 then id else add(p, Times(add, id, p, n - 1))
  }

  lemma {:induction false} TimesPlus<P(!new)>(add: (P, P) -> P, id: P, p: P, m: nat, n: nat)
    requires Monoid(add, id)
    ensures Times(add, id, p, m + n) == add(Times(add, id, p, m), Times(add, id, p, n))
  {
    if m > 0 {
      TimesPlus(add, id, p, m - 1, n);
      assert Associates(add, p, Times(add, id, p, m - 1), Times(add, id, p, n));
    }
  }

  lemma {:induction false} TimesDouble<P(!new)>(add: (P, P) -> P, id: P, p: P, n: nat)
    requires Monoid(add, id)
    ensures Times(add, id, add(p, p), n) == Times(add, id, p, 2 * n)
  {
    if n > 0 {
      TimesDouble(add, id, p, n - 1);
      assert Associates(add, p, p, Times(add, id, p, 2 * n - 2));
      assert Times(add, id, p, 2 * n) == add(p, add(p, Times(add, id, p, 2 * n - 2)));
    }
  }

  /** What the double-and-add loop computes from its two variables, whatever the operation. */
  function DoubleAndAdd<P>(add: (P, P) -> P, result: P, current: P, scalar: nat): P
    decreases scalar
  {
    if scalar == 0 then result
    else DoubleAndAdd(add, if scalar % 2 == 1 then add(result, current) else result, add(current, current), scalar / 2)
  }

  /** In a group it adds the scalar multiple to the first variable. */
  lemma {:induction false} DoubleAndAddExact<P(!new)>(add: (P, P) -> P, id: P, result: P, current: P, scalar: nat)
    requires Monoid(add, id)
    ensures DoubleAndAdd(add, result, current, scalar) == add(result, Times(add, id, current, scalar))
    decreases scalar
  {
    if scalar > 0 {
      var half := scalar / 2;
      var twice := Times(add, id, current, 2 * half);
      TimesDouble(add, id, current, half);
      DoubleAndAddExact(add, id, if scalar % 2 == 1 then add(result, current) else result, add(current, current), half);
      if scalar % 2 == 1 {
        assert Times(add, id, current, scalar) == add(current, twice);
        assert Associates(add, result, current, twice);
      }
    }
  }

  /** The double-and-add loop; in any group it computes n-fold addition. */
  method ScalarMult<P(!new)>(add: (P, P) -> P, id: P, point: P, scalar: nat) returns (result: P)
    ensures result == DoubleAndAdd(add, id, point, scalar)
    ensures Monoid(add, id) ==> result == Times(add, id, point, scalar)
  {
    result := id;
    var current, s := point, scalar;
    while s != 0
      invariant DoubleAndAdd(add, result, current, s) == DoubleAndAdd(add, id, point, scalar)
    {
      if s % 2 == 1 {
        result := add(result, current);
      }
      current := add(current, current);
      s := s / 2;
    }
    if Monoid(add, id) { DoubleAndAddExact(add, id, id, point, scalar); }
  }

  lemma {:induction false} TimesProduct<P(!new)>(add: (P, P) -> P, id: P, p: P, m: nat, n: nat)
    requires Monoid(add, id)
    ensures Times(add, id, Times(add, id, p, m), n) == Times(add, id, p, m * n)
  {
    if n > 0 {
      TimesProduct(add, id, p, m, n - 1);
      TimesPlus(add, id, p, m, m * (n - 1));
      assert m + m * (n - 1) == m * n;
    }
  }

  lemma {:induction false} TimesIdentity<P(!new)>(add: (P, P) -> P, id: P, n: nat)
    requires Monoid(add, id)
    ensures Times(add, id, id, n) == id
  {
    if n > 0 { TimesIdentity(add, id, n - 1); }
  }

  /** Scalars may be reduced modulo an order of the point. */
  lemma {:induction false} TimesReduced<P(!new)>(add: (P, P) -> P, id: P, p: P, n: nat, order: nat)
    requires Monoid(add, id) && order > 0 && Times(add, id, p, order) == id
    ensures Times(add, id, p, n % order) == Times(add, id, p, n)
  {
    TimesProduct(add, id, p, order, n / order);
    TimesIdentity(add, id, n / order);
    TimesPlus(add, id, p, order * (n / order), n % order);
    assert order * (n / order) + n % order == n;
  }

  // ----- little-endian bytes

  type Bytes = seq<int>

  predicate AreBytes(b: Bytes) { forall i :: 0 <= i < |b| ==> 0 <= b[i] < 256 }

  function FromBytes(b: Bytes): (n: nat)
    requires AreBytes(b)
  {
    if b == [] then 0 else b[0] + 256 * FromBytes(b[1..])
  }

  function ToBytes(n: nat, len: nat): (b: Bytes)
    ensures |b| == len && AreBytes(b)
    decreases len
  {
    if len == 0 then [] else [n % 256] + ToBytes(n / 256, len - 1)
  }

  function Pow256(len: nat): nat { if len == 0 then 1 else 256 * Pow256(len - 1) }

  lemma {:induction false} BytesThere(b: Bytes)
    requires AreBytes(b)
    ensures ToBytes(FromBytes(b), |b|) == b
    ensures FromBytes(b) < Pow256(|b|)
  {
    if b != [] {
      BytesThere(b[1..]);
      assert FromBytes(b) / 256 == FromBytes(b[1..]) && FromBytes(b) % 256 == b[0];
    }
  }

  lemma {:induction false} BytesUnique(b: Bytes, b': Bytes)
    requires AreBytes(b) && AreBytes(b') && |b| == |b'| && FromBytes(b) == FromBytes(b')
    ensures b == b'
  {
    BytesThere(b);
    BytesThere(b');
  }

  lemma {:induction false} BytesBack(n: nat, len: nat)
    requires n < Pow256(len)
    ensures FromBytes(ToBytes(n, len)) == n
    decreases len
  {
    if len > 0 {
      BytesBack(n / 256, len - 1);
      assert ToBytes(n, len)[1..] == ToBytes(n / 256, len - 1);
    }
  }

  /** The first byte counts least: bytes in front shift the others by their number. */
  lemma {:induction false} LittleEndian(a: Bytes, b: Bytes)
    requires AreBytes(a) && AreBytes(b)
    ensures AreBytes(a + b) && FromBytes(a + b) == FromBytes(a) + Pow256(|a|) * FromBytes(b)
    ensures |a| == 1 ==> FromBytes(a) == a[0]
  {
    if a == [] {
      assert a + b == b;
    } else {
      LittleEndian(a[1..], b);
      assert (a + b)[1..] == a[1..] + b;
      Shifted(Pow256(|a| - 1), FromBytes(b));
    }
  }

  lemma Shifted(p: nat, n: nat)
    ensures 256 * (p * n) == (256 * p) * n
  {
  }

  // ----- verification

  const L: nat := 7237005577332262213973186563042994240857116359379907606001950938285454250989

  /** The curve as the verifier sees it: a group, a base point, a point codec and the challenge hash. */
  datatype Curve<!P> = Curve(add: (P, P) -> P, id: P, base: P,
                             encode: P -> Bytes, decode: Bytes -> Option<P>,
                             challenge: (Bytes, Bytes, Bytes) -> nat)

  ghost predicate ValidCurve<P(!new)>(c: Curve<P>) {
    && Monoid(c.add, c.id)
    && Times(c.add, c.id, c.base, L) == c.id
    && (forall p :: AreBytes(c.encode(p)) && |c.encode(p)| == 32 && c.decode(c.encode(p)) == Some(p))
  }

  predicate Verify<P(==)>(c: Curve<P>, publicKey: Bytes, message: Bytes, signature: Bytes) {
    && |signature| == 64 && AreBytes(signature)
    && VerifyParts(c, publicKey, message, signature[..32], FromBytes(signature[32..]))
  }

  function Mult<P>(c: Curve<P>, p: P, n: nat): P { DoubleAndAdd(c.add, c.id, p, n) }

  predicate VerifyParts<P(==)>(c: Curve<P>, publicKey: Bytes, message: Bytes, encodedR: Bytes, s: nat) {
    var a := c.decode(publicKey);
    var r := c.decode(encodedR);
    && a.Some? && r.Some? && a.value != c.id
    && s < L
    && Mult(c, a.value, L) == c.id
    && Mult(c, r.value, L) == c.id
    && var k := c.challenge(encodedR, publicKey, message) % L;
       Mult(c, c.base, s) == c.add(r.value, Mult(c, a.value, k))
  }

  /** The verifier as written: early rejections, and the loop for every scalar multiple. */
  method VerifyEd25519<P(!new, ==)>(c: Curve<P>, publicKey: Bytes, message: Bytes, signature: Bytes) returns (ok: bool)
    requires AreBytes(signature)
    ensures ok <==> Verify(c, publicKey, message, signature)
  {
    if |signature| != 64 {
      return false;
    }
    var encodedR := signature[..32];
    var a, r := c.decode(publicKey), c.decode(encodedR);
    if a.None? || r.None? || a.value == c.id {
      return false;
    }
    var s := FromBytes(signature[32..]);
    if s >= L {
      return false;
    }
    var la := ScalarMult(c.add, c.id, a.value, L);
    var lr := ScalarMult(c.add, c.id, r.value, L);
    if la != c.id || lr != c.id {
      return false;
    }
    var k := c.challenge(encodedR, publicKey, message) % L;
    var left := ScalarMult(c.add, c.id, c.base, s);
    var ka := ScalarMult(c.add, c.id, a.value, k);
    ok := left == c.add(r.value, ka);
  }

  lemma {:induction false} MultExact<P(!new)>(c: Curve<P>, p: P, n: nat)
    requires Monoid(c.add, c.id)
    ensures Mult(c, p, n) == Times(c.add, c.id, p, n)
  {
    DoubleAndAddExact(c.add, c.id, c.id, p, n);
  }

  /** What a signature is: points A and R and a scalar S below L that satisfy the equation. */
  ghost predicate Signs<P(!new)>(c: Curve<P>, publicKey: Bytes, message: Bytes, signature: Bytes,
                                 a: P, r: P, encodedR: Bytes, s: nat) {
    && |encodedR| == 32 && AreBytes(encodedR) && s < L && signature == encodedR + ToBytes(s, 32)
    && c.decode(publicKey) == Some(a) && a != c.id && c.decode(encodedR) == Some(r)
    && Times(c.add, c.id, a, L) == c.id && Times(c.add, c.id, r, L) == c.id
    && Times(c.add, c.id, c.base, s) ==
       c.add(r, Times(c.add, c.id, a, c.challenge(encodedR, publicKey, message) % L))
  }

  /** In any group the verifier accepts exactly the signatures. */
  lemma {:induction false} VerifyExact<P(!new)>(c: Curve<P>, publicKey: Bytes, message: Bytes, signature: Bytes)
    requires Monoid(c.add, c.id)
    ensures Verify(c, publicKey, message, signature) <==>
            exists a, r, encodedR, s :: Signs(c, publicKey, message, signature, a, r, encodedR, s)
  {
    if Verify(c, publicKey, message, signature) {
      var er, s := signature[..32], FromBytes(signature[32..]);
      var a, r := c.decode(publicKey).value, c.decode(er).value;
      BytesThere(signature[32..]);
      assert signature == er + signature[32..];
      PartsSign(c, publicKey, message, a, r, er, s);
      assert Signs(c, publicKey, message, signature, a, r, er, s);
    }
    forall a, r, encodedR, s | Signs(c, publicKey, message, signature, a, r, encodedR, s)
      ensures Verify(c, publicKey, message, signature)
    {
      PartsSign(c, publicKey, message, a, r, encodedR, s);
      VerifyJoined(c, publicKey, message, encodedR, s);
    }
  }

  lemma {:induction false} PartsSign<P(!new)>(c: Curve<P>, publicKey: Bytes, message: Bytes, a: P, r: P, er: Bytes,
                                             s: nat)
    requires Monoid(c.add, c.id) && c.decode(publicKey) == Some(a) && c.decode(er) == Some(r)
    requires |er| == 32 && AreBytes(er)
    ensures VerifyParts(c, publicKey, message, er, s) <==>
            Signs(c, publicKey, message, er + ToBytes(s, 32), a, r, er, s)
  {
    MultExact(c, a, L);
    MultExact(c, r, L);
    MultExact(c, c.base, s);
    MultExact(c, a, c.challenge(er, publicKey, message) % L);
  }

  function Response(r: nat, k: nat, a: nat): (s: nat)
    ensures s < L
  {
    (r + k * a) % L
  }

  /** The signature of section 5.1.6 of RFC 8032 with secret scalar `a` and nonce `r`. */
  function Sign<P>(c: Curve<P>, a: nat, r: nat, message: Bytes): Bytes {
    var publicKey := c.encode(Times(c.add, c.id, c.base, a));
    var encodedR := c.encode(Times(c.add, c.id, c.base, r));
    var k := c.challenge(encodedR, publicKey, message) % L;
    encodedR + ToBytes(Response(r, k, a), 32)
  }

  lemma LFits()
    ensures L < Pow256(32)
  {
    assert Pow256(8) == 0x1_0000_0000_0000_0000;
    PowPlus(8, 8);
    PowPlus(16, 16);
  }

  lemma {:induction false} PowPlus(m: nat, n: nat)
    ensures Pow256(m + n) == Pow256(m) * Pow256(n)
  {
    if m > 0 { PowPlus(m - 1, n); }
  }

  lemma {:induction false} TimesOfBase<P(!new)>(c: Curve<P>, a: nat)
    requires ValidCurve(c)
    ensures Times(c.add, c.id, Times(c.add, c.id, c.base, a), L) == c.id
  {
    TimesProduct(c.add, c.id, c.base, a, L);
    TimesProduct(c.add, c.id, c.base, L, a);
    TimesIdentity(c.add, c.id, a);
    assert a * L == L * a;
  }

  lemma {:induction false} EquationFor<P(!new)>(c: Curve<P>, a: nat, r: nat, k: nat, ka: nat)
    requires ValidCurve(c) && ka == a * k
    ensures Times(c.add, c.id, c.base, (r + ka) % L) ==
            c.add(Times(c.add, c.id, c.base, r), Times(c.add, c.id, Times(c.add, c.id, c.base, a), k))
  {
    TimesProduct(c.add, c.id, c.base, a, k);
    TimesPlus(c.add, c.id, c.base, r, ka);
    TimesReduced(c.add, c.id, c.base, r + ka, L);
  }

  /** (r + k a) B = r B + k (a B), with the scalar reduced modulo L. */
  lemma {:induction false} SignatureEquation<P(!new)>(c: Curve<P>, a: nat, r: nat, k: nat)
    requires ValidCurve(c)
    ensures Times(c.add, c.id, c.base, Response(r, k, a)) ==
            c.add(Times(c.add, c.id, c.base, r), Times(c.add, c.id, Times(c.add, c.id, c.base, a), k))
  {
    assert k * a == a * k;
    EquationFor(c, a, r, k, k * a);
  }

  /** Every signature made as the standard says is accepted, unless the public point is the identity. */
  lemma {:induction false} SignedVerifies<P(!new)>(c: Curve<P>, a: nat, r: nat, message: Bytes)
    requires ValidCurve(c)
    ensures Verify(c, c.encode(Times(c.add, c.id, c.base, a)), message, Sign(c, a, r, message)) <==>
            Times(c.add, c.id, c.base, a) != c.id
  {
    var pa, pr := Times(c.add, c.id, c.base, a), Times(c.add, c.id, c.base, r);
    var k := c.challenge(c.encode(pr), c.encode(pa), message) % L;
    SignatureEquation(c, a, r, k);
    TimesOfBase(c, a);
    TimesOfBase(c, r);
    JoinedVerifies(c, c.encode(pa), pa, c.encode(pr), pr, message, Response(r, k, a));
  }

  lemma Halves(x: Bytes, y: Bytes)
    requires AreBytes(x) && AreBytes(y) && |x| == |y| == 32
    ensures |x + y| == 64 && AreBytes(x + y) && (x + y)[..32] == x && (x + y)[32..] == y
  {
  }

  /** A signature put together from its halves is checked by its halves. */
  lemma {:induction false} VerifyJoined<P>(c: Curve<P>, publicKey: Bytes, message: Bytes, r: Bytes, s: nat)
    requires |r| == 32 && AreBytes(r) && s < L
    ensures Verify(c, publicKey, message, r + ToBytes(s, 32)) <==> VerifyParts(c, publicKey, message, r, s)
  {
    LFits();
    BytesBack(s, 32);
    Halves(r, ToBytes(s, 32));
  }

  lemma {:induction false} JoinedVerifies<P(!new)>(c: Curve<P>, ea: Bytes, pa: P, er: Bytes, pr: P,
                                                 message: Bytes, s: nat)
    requires Monoid(c.add, c.id)
    requires |er| == 32 && AreBytes(er) && c.decode(ea) == Some(pa) && c.decode(er) == Some(pr) && s < L
    requires Times(c.add, c.id, pa, L) == c.id && Times(c.add, c.id, pr, L) == c.id
    requires Times(c.add, c.id, c.base, s) == c.add(pr, Times(c.add, c.id, pa, c.challenge(er, ea, message) % L))
    ensures Verify(c, ea, message, er + ToBytes(s, 32)) <==> pa != c.id
  {
    VerifyJoined(c, ea, message, er, s);
    MultExact(c, pa, L);
    MultExact(c, pr, L);
    MultExact(c, c.base, s);
    MultExact(c, pa, c.challenge(er, ea, message) % L);
  }

  /** `order` is the exact order of the base point. */
  ghost predicate ExactOrder<P(!new)>(c: Curve<P>) {
    forall n: nat :: 0 < n < L ==> Times(c.add, c.id, c.base, n) != c.id
  }

  lemma {:induction false} ScalarUnique<P(!new)>(c: Curve<P>, m: nat, n: nat)
    requires ValidCurve(c) && ExactOrder(c) && m <= n < L
    requires Times(c.add, c.id, c.base, m) == Times(c.add, c.id, c.base, n)
    ensures m == n
  {
    var add, id, b := c.add, c.id, c.base;
    TimesPlus(add, id, b, L - n, m);
    TimesPlus(add, id, b, L - n, n);
    assert Times(add, id, b, L - n + m) == id;
  }

  lemma {:induction false} SameResponse<P(!new)>(c: Curve<P>, publicKey: Bytes, message: Bytes, r: Bytes,
                                                s: nat, s': nat)
    requires ValidCurve(c) && ExactOrder(c)
    requires VerifyParts(c, publicKey, message, r, s) && VerifyParts(c, publicKey, message, r, s')
    ensures s == s'
  {
    MultExact(c, c.base, s);
    MultExact(c, c.base, s');
    if s <= s' { ScalarUnique(c, s, s'); } else { ScalarUnique(c, s', s); }
  }

  /** Signatures cannot be varied: key, message and commitment R leave one acceptable scalar encoding. */
  lemma {:induction false} SignatureUnique<P(!new)>(c: Curve<P>, publicKey: Bytes, message: Bytes,
                                                  sig: Bytes, sig': Bytes)
    requires ValidCurve(c) && ExactOrder(c)
    requires Verify(c, publicKey, message, sig) && Verify(c, publicKey, message, sig') && sig[..32] == sig'[..32]
    ensures sig == sig'
  {
    var t, t' := sig[32..], sig'[32..];
    SameResponse(c, publicKey, message, sig[..32], FromBytes(t), FromBytes(t'));
    BytesUnique(t, t');
    assert sig == sig[..32] + t && sig' == sig'[..32] + t';
  }

  // ----- the concrete curve

  const Q: nat := 57896044618658097711785492504343953926634992332820282019728792003956564819949
  const P255: nat := 57896044618658097711785492504343953926634992332820282019728792003956564819968

  function PowMod(b: int, e: nat): (r: int)
    ensures 0 <= r < Q
  {
    if e == 0 then 1 else b * PowMod(b, e - 1) % Q
  }

  lemma {:induction false} TimesMod(b: int, n: int)
    ensures b * (n % Q) % Q == b * n % Q
  {
    var k := n / Q;
    assert b * n == b * (n % Q) + (b * k) * Q by {
      assert n == n % Q + k * Q;
      Distribute(b, n % Q, k * Q);
      Regroup(b, k);
    }
    PlusMultiple(b * (n % Q), b * k);
  }

  lemma Distribute(b: int, x: int, y: int)
    ensures b * (x + y) == b * x + b * y
  {
  }

  lemma Regroup(b: int, k: int)
    ensures b * (k * Q) == (b * k) * Q
  {
  }

  /** It is the power, reduced. */
  lemma {:induction false} PowModExact(b: int, e: nat)
    ensures PowMod(b, e) == Power(b, e) % Q
  {
    if e > 0 {
      PowModExact(b, e - 1);
      TimesMod(b, Power(b, e - 1));
    }
  }

  lemma {:induction false} PowOne(b: int, e: nat)
    requires b % Q == 1
    ensures PowMod(b, e) == 1
  {
    if e > 0 { PowOne(b, e - 1); }
  }

  lemma PowZero(e: nat)
    requires e > 0
    ensures PowMod(0, e) == 0
  {
    assert PowMod(0, e) == 0 * PowMod(0, e - 1) % Q;
  }

  type Point = (int, int)

  /** The numerators of the addition formula. */
  function Sums(left: Point, right: Point): Point {
    (left.0 * right.1 + right.0 * left.1, left.1 * right.1 + left.0 * right.0)
  }

  function Scaled(p: Point, a: int, b: int): Point { (p.0 * a % Q, p.1 * b % Q) }

  /** The addition formula, given the product of d and all coordinates. */
  function AddWith(product: int, left: Point, right: Point): Point {
    Scaled(Sums(left, right), PowMod(1 + product, Q - 2), PowMod(1 - product, Q - 2))
  }

  function PointAdd(d: int, left: Point, right: Point): Point {
    AddWith(d * left.0 * right.0 * left.1 * right.1, left, right)
  }

  lemma PlusMultiple(x: int, k: int)
    ensures (x + k * Q) % Q == x % Q
  {
  }

  lemma MinusMultiple(x: int, k: int)
    ensures x - k * Q == x + -k * Q
  {
  }

  lemma {:induction false} UnitDenominators(product: int, k: int)
    requires product == k * Q
    ensures PowMod(1 + product, Q - 2) == 1 && PowMod(1 - product, Q - 2) == 1
  {
    PlusMultiple(1, k);
    PlusMultiple(1, -k);
    MinusMultiple(1, k);
    PowOne(1 + product, Q - 2);
    PowOne(1 - product, Q - 2);
  }

  lemma ScaledByOne(p: Point)
    ensures Scaled(p, 1, 1) == Reduce(p)
  {
  }

  /** Where the product is a multiple of Q the denominators are 1. */
  lemma {:induction false} PointAddOverOne(d: int, left: Point, right: Point, k: int)
    requires d * left.0 * right.0 * left.1 * right.1 == k * Q
    ensures PointAdd(d, left, right) == Reduce(Sums(left, right))
  {
    UnitDenominators(k * Q, k);
    ScaledByOne(Sums(left, right));
  }

  lemma ProductSymmetric(d: int, x1: int, y1: int, x2: int, y2: int)
    ensures d * x1 * x2 * y1 * y2 == d * x2 * x1 * y2 * y1
  {
  }

  lemma SumsSymmetric(p: Point, q: Point)
    ensures Sums(p, q) == Sums(q, p)
  {
  }

  /** The addition formula is symmetric. */
  lemma {:induction false} PointAddSymmetric(d: int, p: Point, q: Point)
    ensures PointAdd(d, p, q) == PointAdd(d, q, p)
  {
    ProductSymmetric(d, p.0, p.1, q.0, q.1);
    SumsSymmetric(p, q);
  }

  const IDENTITY: Point := (0, 1)

  predicate Reduced(p: Point) { 0 <= p.0 < Q && 0 <= p.1 < Q }

  function Reduce(p: Point): Point { (p.0 % Q, p.1 % Q) }

  lemma ReducedExact(p: Point)
    ensures Reduce(p) == p <==> Reduced(p)
  {
  }

  lemma ZeroProduct(d: int, x: int, y: int)
    ensures d * 0 * x * 1 * y == 0 * Q
  {
  }

  lemma SumsUnit(p: Point)
    ensures Sums(IDENTITY, p) == p
  {
  }

  /** Adding (0, 1) reduces the coordinates. */
  lemma {:induction false} PointAddReduces(d: int, p: Point)
    ensures PointAdd(d, IDENTITY, p) == Reduce(p) && PointAdd(d, p, IDENTITY) == Reduce(p)
  {
    ZeroProduct(d, p.0, p.1);
    PointAddOverOne(d, IDENTITY, p, 0);
    SumsUnit(p);
    PointAddSymmetric(d, IDENTITY, p);
  }

  /** (0, 1) is a unit of the addition formula exactly on reduced coordinates. */
  lemma {:induction false} PointAddUnit(d: int, p: Point)
    ensures PointAdd(d, IDENTITY, p) == p <==> Reduced(p)
    ensures PointAdd(d, p, IDENTITY) == p <==> Reduced(p)
  {
    PointAddReduces(d, p);
    ReducedExact(p);
  }

  function XSquared(d: int, y: int): (r: int)
    ensures 0 <= r < Q
  {
    (y * y - 1) * PowMod(d * y * y + 1, Q - 2) % Q
  }

  /** A quotient: scaling by a power and multiplying by its base again raises the power by one. */
  lemma {:induction false} Quotient(n: int, b: int, e: nat)
    ensures (n * PowMod(b, e) % Q) * b % Q == n * PowMod(b, e + 1) % Q
  {
    var p := PowMod(b, e);
    TimesMod(b, n * p);
    assert (n * p % Q) * b == b * (n * p % Q);
    assert b * (n * p) == n * (b * p) by { Swap(n, b, p); }
    TimesMod(n, b * p);
  }

  lemma Swap(n: int, b: int, p: int)
    ensures b * (n * p) == n * (b * p)
  {
  }

  /**
    The sum solves the curve's addition law: its coordinates times their denominators are the
    numerators, up to the power Q - 1, which is 1 for every denominator that is not 0 modulo the prime Q.
   */
  lemma {:induction false} AdditionLaw(d: int, p: Point, q: Point)
    ensures var m := d * p.0 * q.0 * p.1 * q.1;
            var r := PointAdd(d, p, q);
            && r.0 * (1 + m) % Q == (p.0 * q.1 + q.0 * p.1) * PowMod(1 + m, Q - 1) % Q
            && r.1 * (1 - m) % Q == (p.1 * q.1 + p.0 * q.0) * PowMod(1 - m, Q - 1) % Q
  {
    var m := d * p.0 * q.0 * p.1 * q.1;
    Quotient(p.0 * q.1 + q.0 * p.1, 1 + m, Q - 2);
    Quotient(p.1 * q.1 + p.0 * q.0, 1 - m, Q - 2);
  }

  /** The square of x solves the curve equation for `y`, in the same sense. */
  lemma {:induction false} SquareLaw(d: int, y: int)
    ensures XSquared(d, y) * (d * y * y + 1) % Q == (y * y - 1) * PowMod(d * y * y + 1, Q - 1) % Q
  {
    Quotient(y * y - 1, d * y * y + 1, Q - 2);
  }

  /** The x coordinate for `y`, with the parity `sign`; `d` and `root` are the curve constants. */
  function RecoverX(d: int, root: int, y: int, sign: int): (x: Option<int>)
  {
    var x2 := XSquared(d, y);
    var first := PowMod(x2, (Q + 3) / 8);
    var x := if (first * first - x2) % Q != 0 then first * root % Q else first;
    if (x * x - x2) % Q != 0 then None
    else if x % 2 != sign then Some(Q - x) else Some(x)
  }

  lemma ParityFlips(x: int)
    requires 0 <= x < Q
    ensures (Q - x) % 2 != x % 2
  {
    assert Q == 2 * 28948022309329048855892746252171976963317496166410141009864396001978282409974 + 1;
  }

  /** The recovered coordinate has the parity asked for; it is Q itself only for a zero root with sign 1. */
  lemma {:induction false} RecoverXParity(d: int, root: int, y: int, sign: int)
    requires 0 <= sign <= 1 && RecoverX(d, root, y, sign).Some?
    ensures var x := RecoverX(d, root, y, sign).value;
            0 <= x <= Q && x % 2 == sign && (x == Q <==> sign == 1 && XSquared(d, y) == 0)
  {
    var x2 := XSquared(d, y);
    var first := PowMod(x2, (Q + 3) / 8);
    var x := if (first * first - x2) % Q != 0 then first * root % Q else first;
    assert 0 <= x < Q;
    ParityFlips(x);
    if x2 == 0 { PowZero((Q + 3) / 8); }
    if x == 0 {
      assert (0 * 0 - x2) % Q == 0;
      assert x2 == 0;
    }
  }

  lemma {:induction false} NegatedSquare(x: int)
    ensures (Q - x) * (Q - x) % Q == x * x % Q
  {
    assert (Q - x) * (Q - x) == x * x + (Q - 2 * x) * Q;
    PlusMultiple(x * x, Q - 2 * x);
  }

  lemma {:induction false} SameResidue(a: int, b: int)
    requires 0 <= b < Q
    ensures (a - b) % Q == 0 <==> a % Q == b
  {
  }

  /** A recovered coordinate is a root of the square, whichever of the two it is. */
  lemma {:induction false} RecoverXRoot(d: int, root: int, y: int, sign: int)
    ensures var x := RecoverX(d, root, y, sign); x.Some? ==> x.value * x.value % Q == XSquared(d, y)
  {
    var x2 := XSquared(d, y);
    var first := PowMod(x2, (Q + 3) / 8);
    var x := if (first * first - x2) % Q != 0 then first * root % Q else first;
    SameResidue(x * x, x2);
    NegatedSquare(x);
  }

  /** A coordinate is recovered exactly when the candidate power, or it times the fourth root of one, is a root. */
  lemma {:induction false} RecoverXExact(d: int, root: int, y: int, sign: int)
    ensures var x2 := XSquared(d, y);
            var first := PowMod(x2, (Q + 3) / 8);
            RecoverX(d, root, y, sign).Some? <==>
            first * first % Q == x2 || (first * root % Q) * (first * root % Q) % Q == x2
  {
    var x2 := XSquared(d, y);
    var first := PowMod(x2, (Q + 3) / 8);
    SameResidue(first * first, x2);
    SameResidue((first * root % Q) * (first * root % Q), x2);
  }

  function PointValue(p: Point): (n: nat)
    requires 0 <= p.1
  {
    p.1 + (p.0 % 2) * P255
  }

  function EncodePoint(p: Point): Bytes
    requires 0 <= p.1
  {
    ToBytes(PointValue(p), 32)
  }

  function DecodePoint(d: int, root: int, encoded: Bytes): Option<Point> {
    if |encoded| != 32 || !AreBytes(encoded) then None
    else
      var sign, y := SignOf(encoded), YOf(encoded);
      if y >= Q then None
      else
        var x := RecoverX(d, root, y, sign);
        if x.None? then None
        else if EncodePoint((x.value, y)) != encoded then None
        else Some((x.value, y))
  }

  lemma Bound32()
    ensures Pow256(32) == 2 * P255
  {
    assert Pow256(8) == 0x1_0000_0000_0000_0000;
    PowPlus(8, 8);
    PowPlus(16, 16);
  }

  /** The field and the order of the base point, as RFC 8032 gives them. */
  lemma CurveConstants()
    ensures Q == P255 - 19 && 2 * P255 == Pow256(32)
    ensures 8 * (L - 27742317777372353535851937790883648493) == P255
  {
    Bound32();
  }

  lemma Recompose(value: nat)
    requires value < 2 * P255
    ensures 0 <= value / P255 <= 1 && 0 <= value % P255
    ensures value == value % P255 + (value / P255) * P255
  {
  }

  /** The sign bit and the y coordinate of an encoding. */
  function SignOf(encoded: Bytes): int
    requires AreBytes(encoded)
  {
    FromBytes(encoded) / P255
  }

  function YOf(encoded: Bytes): int
    requires AreBytes(encoded)
  {
    FromBytes(encoded) % P255
  }

  lemma {:induction false} SignRange(encoded: Bytes)
    requires |encoded| == 32 && AreBytes(encoded)
    ensures 0 <= SignOf(encoded) <= 1
    ensures FromBytes(encoded) == YOf(encoded) + SignOf(encoded) * P255
  {
    BytesThere(encoded);
    Bound32();
    Recompose(FromBytes(encoded));
  }

  lemma {:induction false} ValueBack(encoded: Bytes, x: int)
    requires |encoded| == 32 && AreBytes(encoded) && x % 2 == SignOf(encoded)
    ensures 0 <= YOf(encoded) && PointValue((x, YOf(encoded))) == FromBytes(encoded)
  {
    SignRange(encoded);
  }

  /** Any x of the right parity, with the y of the encoding, encodes to the same bytes. */
  lemma {:induction false} EncodesBack(encoded: Bytes, x: int)
    requires |encoded| == 32 && AreBytes(encoded) && x % 2 == SignOf(encoded)
    ensures EncodePoint((x, YOf(encoded))) == encoded
  {
    ValueBack(encoded, x);
    BytesThere(encoded);
  }

  /**
    A 32-byte string decodes exactly when its y is reduced and has a square root; the re-encoding
    check never rejects it, and the decoded point encodes back to the same bytes.
   */
  lemma {:induction false} DecodeExact(d: int, root: int, encoded: Bytes)
    requires |encoded| == 32 && AreBytes(encoded)
    ensures 0 <= SignOf(encoded) <= 1
    ensures DecodePoint(d, root, encoded).Some? <==>
            YOf(encoded) < Q && RecoverX(d, root, YOf(encoded), SignOf(encoded)).Some?
    ensures DecodePoint(d, root, encoded).Some? ==>
              var p := DecodePoint(d, root, encoded).value;
              && p.1 == YOf(encoded) && 0 <= p.0 <= Q && p.0 % 2 == SignOf(encoded)
              && EncodePoint(p) == encoded
  {
    SignRange(encoded);
    var x := RecoverX(d, root, YOf(encoded), SignOf(encoded));
    if x.Some? {
      RecoverXParity(d, root, YOf(encoded), SignOf(encoded));
      EncodesBack(encoded, x.value);
    }
  }

  /** A decoded point lies on the curve: x^2 (d y^2 + 1) is y^2 - 1, in the sense of the laws above. */
  lemma {:induction false} DecodedOnCurve(d: int, root: int, encoded: Bytes)
    requires DecodePoint(d, root, encoded).Some?
    ensures var p := DecodePoint(d, root, encoded).value;
            (p.0 * p.0 % Q) * (d * p.1 * p.1 + 1) % Q == (p.1 * p.1 - 1) * PowMod(d * p.1 * p.1 + 1, Q - 1) % Q
  {
    var p := DecodePoint(d, root, encoded).value;
    RecoverXRoot(d, root, p.1, SignOf(encoded));
    SquareLaw(d, p.1);
  }

  lemma {:induction false} DecodeInjective(d: int, root: int, e: Bytes, e': Bytes)
    requires |e| == |e'| == 32 && AreBytes(e) && AreBytes(e')
    requires DecodePoint(d, root, e).Some? && DecodePoint(d, root, e) == DecodePoint(d, root, e')
    ensures e == e'
  {
    DecodeExact(d, root, e);
    DecodeExact(d, root, e');
  }

  // ----- the second name of the identity

  /** The y coordinate 1 with the sign bit set; section 5.1.3 of RFC 8032 has no point for it. */
  const SIGNED_IDENTITY: Bytes := ToBytes(1 + P255, 32)

  /** The point it decodes to. */
  const ALIAS: Point := (Q, 1)

  lemma {:induction false} SignedIdentityParts()
    ensures FromBytes(SIGNED_IDENTITY) == 1 + P255 && SignOf(SIGNED_IDENTITY) == 1 && YOf(SIGNED_IDENTITY) == 1
  {
    Bound32();
    BytesBack(1 + P255, 32);
  }

  lemma {:induction false} OneRoot(d: int, root: int, sign: int)
    requires 0 <= sign <= 1
    ensures RecoverX(d, root, 1, sign) == Some(if sign == 1 then Q else 0)
  {
    assert XSquared(d, 1) == 0 * PowMod(d * 1 * 1 + 1, Q - 2) % Q == 0;
    PowZero((Q + 3) / 8);
    ParityFlips(0);
  }

  /** The code decodes it, to a point that differs from the identity in name only. */
  lemma {:induction false} SignedIdentityDecodes(d: int, root: int)
    ensures DecodePoint(d, root, SIGNED_IDENTITY) == Some(ALIAS)
  {
    SignedIdentityParts();
    OneRoot(d, root, 1);
    DecodeExact(d, root, SIGNED_IDENTITY);
  }

  lemma AliasCoordinates(p: Point)
    requires 0 <= p.0 <= Q && 0 <= p.1 < Q
    ensures Reduce(p) == IDENTITY && p != IDENTITY <==> p == ALIAS
  {
  }

  /** A decoded point is congruent to the identity without being it exactly for that encoding. */
  lemma {:induction false} IdentityAliasExact(d: int, root: int, encoded: Bytes)
    requires DecodePoint(d, root, encoded).Some?
    ensures var p := DecodePoint(d, root, encoded).value;
            Reduce(p) == IDENTITY && p != IDENTITY <==> encoded == SIGNED_IDENTITY
  {
    var p := DecodePoint(d, root, encoded).value;
    DecodeExact(d, root, encoded);
    AliasCoordinates(p);
    SignedIdentityDecodes(d, root);
    if p == ALIAS { DecodeInjective(d, root, encoded, SIGNED_IDENTITY); }
  }

  lemma AliasProduct(d: int)
    ensures d * Q * Q * 1 * 1 == (d * Q) * Q
  {
  }

  lemma {:induction false} IdentityTwice(d: int)
    ensures PointAdd(d, IDENTITY, IDENTITY) == IDENTITY
  {
    PointAddReduces(d, IDENTITY);
  }

  lemma {:induction false} IdentityAndAlias(d: int)
    ensures PointAdd(d, IDENTITY, ALIAS) == IDENTITY
  {
    PointAddReduces(d, ALIAS);
  }

  lemma AliasSums()
    ensures Reduce(Sums(ALIAS, ALIAS)) == IDENTITY
  {
    assert Sums(ALIAS, ALIAS) == (Q + Q, 1 + Q * Q);
    PlusMultiple(0, 2);
    PlusMultiple(1, Q);
  }

  lemma {:induction false} AliasTwice(d: int)
    ensures PointAdd(d, ALIAS, ALIAS) == IDENTITY
  {
    AliasProduct(d);
    PointAddOverOne(d, ALIAS, ALIAS, d * Q);
    AliasSums();
  }

  /** Where one and two additions vanish, every multiple does. */
  lemma {:induction false} MultiplesVanish<P>(add: (P, P) -> P, id: P, p: P, n: nat)
    requires add(id, id) == id && add(id, p) == id && add(p, p) == id
    ensures DoubleAndAdd(add, id, p, n) == id
    decreases n
  {
    if n > 0 { MultiplesVanish(add, id, id, n / 2); }
  }

  /** A public point that is not the identity but vanishes like it drops out of the equation. */
  lemma {:induction false} VanishingKey<P>(c: Curve<P>, publicKey: Bytes, a: P, message: Bytes, r: Bytes, s: nat)
    requires c.decode(publicKey) == Some(a) && a != c.id
    requires c.add(c.id, c.id) == c.id && c.add(c.id, a) == c.id && c.add(a, a) == c.id
    ensures VerifyParts(c, publicKey, message, r, s) <==>
            && c.decode(r).Some? && s < L && Mult(c, c.decode(r).value, L) == c.id
            && Mult(c, c.base, s) == c.add(c.decode(r).value, c.id)
  {
    MultiplesVanish(c.add, c.id, a, L);
    MultiplesVanish(c.add, c.id, a, c.challenge(r, publicKey, message) % L);
  }

  /** The curve of the source: the concrete formula and codec, with any base point and challenge hash. */
  function Concrete(d: int, root: int, base: Point, challenge: (Bytes, Bytes, Bytes) -> nat): Curve<Point> {
    Curve((p: Point, q: Point) => PointAdd(d, p, q), IDENTITY, base,
          (p: Point) => if 0 <= p.1 then EncodePoint(p) else [],
          (encoded: Bytes) => DecodePoint(d, root, encoded), challenge)
  }

  /**
    The identity test compares coordinates as they are, so this key passes it, and then the public
    key drops out of the equation: acceptance does not depend on the message.
   */
  lemma {:induction false} SignedIdentityKey(d: int, root: int, base: Point, challenge: (Bytes, Bytes, Bytes) -> nat,
                          message: Bytes, r: Bytes, s: nat)
    ensures var c := Concrete(d, root, base, challenge);
            VerifyParts(c, SIGNED_IDENTITY, message, r, s) <==>
            && c.decode(r).Some? && s < L && Mult(c, c.decode(r).value, L) == IDENTITY
            && Mult(c, base, s) == Reduce(c.decode(r).value)
  {
    var c := Concrete(d, root, base, challenge);
    SignedIdentityDecodes(d, root);
    IdentityTwice(d);
    IdentityAndAlias(d);
    AliasTwice(d);
    VanishingKey(c, SIGNED_IDENTITY, ALIAS, message, r, s);
    if c.decode(r).Some? { PointAddReduces(d, c.decode(r).value); }
  }

  lemma {:induction false} IdentityDecodes(d: int, root: int)
    ensures DecodePoint(d, root, ToBytes(1, 32)) == Some(IDENTITY)
  {
    Bound32();
    BytesBack(1, 32);
    OneRoot(d, root, 0);
    DecodeExact(d, root, ToBytes(1, 32));
  }

  lemma {:induction false} SignedIdentityHalves(d: int, root: int, base: Point,
                                               challenge: (Bytes, Bytes, Bytes) -> nat, message: Bytes)
    ensures VerifyParts(Concrete(d, root, base, challenge), SIGNED_IDENTITY, message, ToBytes(1, 32), 0)
  {
    var c := Concrete(d, root, base, challenge);
    IdentityDecodes(d, root);
    IdentityTwice(d);
    MultiplesVanish(c.add, c.id, IDENTITY, L);
    SignedIdentityKey(d, root, base, challenge, message, ToBytes(1, 32), 0);
  }

  /** Under that key one fixed signature is accepted for every message. */
  lemma {:induction false} SignedIdentityAccepts(d: int, root: int, base: Point,
                                               challenge: (Bytes, Bytes, Bytes) -> nat, message: Bytes)
    ensures Verify(Concrete(d, root, base, challenge), SIGNED_IDENTITY, message, ToBytes(1, 32) + ToBytes(0, 32))
  {
    var c := Concrete(d, root, base, challenge);
    SignedIdentityHalves(d, root, base, challenge, message);
    VerifyJoined(c, SIGNED_IDENTITY, message, ToBytes(1, 32), 0);
  }
}
