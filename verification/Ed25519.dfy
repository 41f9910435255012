/** Ed25519 as `Ed25519.cpp` computes it: extended points, the base-point table, encoding,
    signing and verification. */
module Ed25519 {
  import opened Num
  import Bits
  import opened Modular
  import opened Groups
  import opened Edwards
  import opened ScalarMul

  ghost predicate Stands(c: Curve, p: Point, a: Affine)
  {
    c.q > 1 && OnCurve(c, a) && Rep(c, p, a)
  }

  function PointOps(c: Curve): Ops<Point>
    requires c.q > 0
  {
    Ops((p: Point, r: Point) => Sum(c, p, r), p => Negate(p), p => Double(c, p), Point(0, 1, None, None))
  }

  ghost function Standing(c: Curve): (Point, Affine) -> bool
  {
    (p: Point, a: Affine) => Stands(c, p, a)
  }

  lemma NegateRep(c: Curve, p: Point, a: Affine)
    requires Stands(c, p, a)
    ensures Stands(c, Negate(p), AffineNeg(c, a))
  {
    var q, n, Z := c.q, AffineNeg(c, a), p.Z();
    NegX(a.x, n.x, q);
    NegOnCurve(c, a);
    NegateEqs(p.x, p.T(), a.x, a.y, n.x, Z, q);
    assert Negate(p).T() == -p.T();
  }

  lemma NegateEqs(px: int, t: int, x: int, y: int, n: int, Z: int, q: int)
    requires q > 0 && Eq(n, -x, q) && Eq(px, x * Z, q) && Eq(t, x * y * Z, q)
    ensures Eq(-px, n * Z, q) && Eq(-t, n * y * Z, q)
  {
    EqNeg(px, x * Z, q);
    EqMul(n, -x, Z, Z, q);
    assert -x * Z == -(x * Z);
    EqNeg(t, x * y * Z, q);
    EqMul(n, -x, y * Z, y * Z, q);
    assert -x * (y * Z) == -(x * y * Z);
    MulAssoc(n, y, Z);
  }

  lemma IdentityRep(c: Curve)
    requires c.q > 1
    ensures Stands(c, Point(0, 1, None, None), Affine(0, 1))
  {
    ZeroOnCurve(c);
    ModUnique(1, c.q, 0, 1);
  }

  /** The point formulas compute the curve group, whatever representatives they are given. */
  lemma PointsAreSound(c: Curve)
    requires CurveLaw(c)
    ensures Sound(PointOps(c), CurveGroup(c), Standing(c))
  {
    CurveIsAbelian(c);
    IdentityRep(c);
    var o, g, rep := PointOps(c), CurveGroup(c), Standing(c);
    forall p, r, a, b | rep(p, a) && rep(r, b) ensures Faithful(o, g, rep, p, r, a, b) {
      SumExists(c, a, b);
      SumExists(c, a, a);
      SumRep(c, p, r, a, b);
      SumRep(c, p, p, a, a);
      DoubleIsSum(c, p);
      NegateRep(c, p, a);
    }
  }

  //
  // Encoding
  //

  /** `Normalize` */
  function Normalize(c: Curve, p: Point): Affine
    requires c.q > 0
  {
    if p.z.Some? then
      var i := c.inv(p.z.value);
      Affine((p.x * i) % c.q, (p.y * i) % c.q)
    else Affine(p.x, p.y)
  }

  /** `EncodePoint`: the 32 bytes of y, with the parity of x in the highest bit. */
  function EncodePoint(a: Affine): (s: bytes)
    requires 0 <= a.y
    ensures |s| == 32
  {
    var s := LeBytes(a.y, 32);
    if a.x % 2 == 1 then s[31 := if s[31] < 128 then s[31] + 128 else s[31]] else s
  }

  /** The parity of x is set by `|= 0x80`. */
  lemma EncodePointSetsBit(a: Affine)
    requires 0 <= a.y && a.x % 2 == 1
    ensures EncodePoint(a)[31] == Bits.Or(LeBytes(a.y, 32)[31], 128)
  {
    assert Pow(2, 7) == 128;
    Bits.OrBit(LeBytes(a.y, 32)[31], 7, 128);
  }

  /** Normalising forgets the representative. */
  lemma NormalizeStands(c: Curve, p: Point, a: Affine)
    requires HasInverses(c.q, c.inv) && Stands(c, p, a)
    requires p.z.Some? || (0 <= p.x < c.q && 0 <= p.y < c.q)
    ensures Normalize(c, p) == a
  {
    if p.z.Some? {
      Unscale(p.x, a.x, p.Z(), c.q, c.inv);
      Unscale(p.y, a.y, p.Z(), c.q, c.inv);
    } else {
      EqSmall(p.x, a.x, c.q);
      EqSmall(p.y, a.y, c.q);
    }
  }

  lemma Unscale(px: int, x: int, Z: int, q: int, inv: int -> int)
    requires HasInverses(q, inv) && Z % q != 0 && 0 <= x < q && Eq(px, x * Z, q)
    ensures (px * inv(Z)) % q == x
  {
    EqMul(px, x * Z, inv(Z), inv(Z), q);
    EqMul(Z * inv(Z), 1, x, x, q);
    assert x * Z * inv(Z) == Z * inv(Z) * x;
    EqMod(px * inv(Z), q);
    EqSmall((px * inv(Z)) % q, x, q);
  }

  lemma ComputedNormal(c: Curve, p: Point)
    requires c.q > 1 && Computed(PointOps(c), p)
    ensures p.z.Some? || (0 <= p.x < c.q && 0 <= p.y < c.q)
  {
    var o := PointOps(c);
    if p != o.id {
      if r, s :| p == o.sum(r, s) {
        assert p == Sum(c, r, s);
      } else {
        var r :| p == o.dbl(r);
        assert p == Double(c, r);
      }
    }
  }

  //
  // Signatures
  //

  type Sha512 = bytes -> bytes

  /** enc(n) is the encoding of n B. */
  ghost predicate Encodes(enc: nat -> bytes, c: Curve, B: Affine)
    requires c.q > 1
  {
    forall n: nat {:trigger enc(n)} ::
      OnCurve(c, Times(CurveGroup(c), n, B)) && enc(n) == EncodePoint(Times(CurveGroup(c), n, B))
  }

  /** The multiples of a point on the curve all have encodings. */
  lemma EncoderExists(c: Curve, B: Affine) returns (enc: nat -> bytes)
    requires CurveLaw(c) && OnCurve(c, B)
    ensures Encodes(enc, c, B)
  {
    var g := CurveGroup(c);
    CurveIsAbelian(c);
    enc := (n: nat) => if Times(g, n, B).y >= 0 then EncodePoint(Times(g, n, B)) else [];
    forall n: nat ensures OnCurve(c, Times(g, n, B)) {
      TimesHas(g, n, B);
    }
  }

  /** The signature of message m under an expanded private key, in terms of encoded multiples. */
  function Signature(enc: nat -> bytes, l: nat, sha: Sha512, expanded: bytes, pub: bytes, m: bytes): bytes
    requires l > 0 && |expanded| == 64 && forall s :: |sha(s)| == 64
  {
    var nonce := Nonce(sha, expanded, m);
    Complete(enc(Le(nonce)), nonce, l, sha, expanded, pub, m)
  }

  /** The 32 bytes that r is read from. */
  function Nonce(sha: Sha512, expanded: bytes, m: bytes): (s: bytes)
    requires |expanded| == 64 && forall s :: |sha(s)| == 64
    ensures |s| == 32
  {
    sha(expanded[32..] + m)[..32]
  }

  /** The second half of `Sign`, once R is known. */
  function Complete(R: bytes, nonce: bytes, l: nat, sha: Sha512, expanded: bytes, pub: bytes, m: bytes): bytes
    requires l > 0 && |expanded| == 64
  {
    R + LeBytes(Scalar(Le(sha(R + pub + m)), Le(expanded[..32]), Le(nonce), l), 32)
  }

  /** S = (h a mod l + r) mod l */
  function Scalar(h: nat, a: nat, r: nat, l: nat): nat
    requires l > 0
  {
    ((h * a) % l + r) % l
  }

  /** What `Verify` checks: R is the encoding of S B - h A. */
  ghost predicate Accepted(c: Curve, B: Affine, l: nat, A: Affine, digest: bytes, sig: bytes)
    requires c.q > 1 && l > 0 && |sig| == 64
  {
    var g := CurveGroup(c);
    var D := g.add(Times(g, Le(sig[32..]), B), g.neg(Times(g, Le(digest) % l, A)));
    OnCurve(c, D) && sig[..32] == EncodePoint(D)
  }

  /** S B - h A = r B when A = a B, S = h a + r modulo l and l B = 0. */
  lemma SignatureEquation<T(!new)>(g: Group<T>, B: T, l: nat, r: nat, h: nat, a: nat)
    requires Abelian(g) && g.has(B) && l > 0 && Times(g, l, B) == g.zero
    ensures g.add(Times(g, Scalar(h, a, r, l), B), g.neg(Times(g, h % l, Times(g, a, B)))) == Times(g, r, B)
  {
    var u: nat, k: nat, n: nat := ReducedScalar(l, r, h, a);
    TimesTimes(g, h % l, a, B);
    TimesOrder(g, l, k, B);
    DropOrder(g, B, n, r, u, Scalar(h, a, r, l));
  }

  lemma DropOrder<T(!new)>(g: Group<T>, B: T, n: nat, r: nat, u: nat, S: nat)
    requires Abelian(g) && g.has(B) && Times(g, n, B) == g.zero && r + u == S + n
    ensures g.add(Times(g, S, B), g.neg(Times(g, u, B))) == Times(g, r, B)
  {
    var s, t, v := Times(g, S, B), Times(g, r, B), Times(g, u, B);
    TimesHas(g, S, B);
    TimesHas(g, r, B);
    TimesHas(g, u, B);
    var w: nat := r + u;
    TimesSum(g, w, S, n, B);
    TimesSum(g, w, r, u, B);
    Law(g, s, s, s);
    assert s == g.add(t, v);
    Subtract(g, s, t, v);
  }

  lemma ReducedScalar(l: nat, r: nat, h: nat, a: nat) returns (u: nat, k: nat, n: nat)
    requires l > 0
    ensures u == (h % l) * a && n == l * k && r + u == Scalar(h, a, r, l) + n
  {
    u := (h % l) * a;
    EqMod(h, l);
    EqMul(h % l, h, a, a, l);
    EqMod(h * a, l);
    EqAdd((h * a) % l, u, r, r, l);
    assert (u + r) % l == Scalar(h, a, r, l);
    k := (u + r) / l;
    n := l * k;
  }

  /** Every signature is accepted for the matching public key: reduction of S and h modulo the
      order, and the 32-byte encoding of S, lose nothing. */
  lemma SignatureAccepted(c: Curve, B: Affine, enc: nat -> bytes, l: nat, sha: Sha512, expanded: bytes, pub: bytes,
                          m: bytes)
    requires CurveLaw(c) && OnCurve(c, B) && Encodes(enc, c, B)
    requires 0 < l <= Pow(256, 32) && Times(CurveGroup(c), l, B) == Affine(0, 1)
    requires |expanded| == 64 && forall s :: |sha(s)| == 64
    ensures var A := Times(CurveGroup(c), Le(expanded[..32]), B);
      var sig := Signature(enc, l, sha, expanded, pub, m);
      |sig| == 64 && Accepted(c, B, l, A, sha(sig[..32] + pub + m), sig)
  {
    var r := Le(Nonce(sha, expanded, m));
    var R := enc(r);
    var h, a := Le(sha(R + pub + m)), Le(expanded[..32]);
    var S := Scalar(h, a, r, l);
    var sig := Signature(enc, l, sha, expanded, pub, m);
    assert sig == R + LeBytes(S, 32) && |R| == 32;
    assert sig[..32] == R && sig[32..] == LeBytes(S, 32);
    ScalarFits(S, l);
    CurveIsAbelian(c);
    SignatureEquation(CurveGroup(c), B, l, r, h, a);
  }

  lemma ScalarFits(S: nat, l: nat)
    requires S < l <= Pow(256, 32)
    ensures Le(LeBytes(S, 32)) == S
  {
    LeOfLeBytes(S, 32);
    ModUnique(S, Pow(256, 32), 0, S);
  }

  //
  // The methods
  //

  ghost predicate IsBaseTable(t: BaseTable<Point, Affine>, c: Curve, B: Affine)
    reads t, t.entries
  {
    && CurveLaw(c) && OnCurve(c, B) && t.Valid()
    && t.o == PointOps(c) && t.g == CurveGroup(c) && t.rep == Standing(c) && t.base == B
  }

  /** `EncodePoint (Normalize (MulB (e)))` */
  method EncodeMultiple(c: Curve, t: BaseTable<Point, Affine>, e: bytes, ghost B: Affine, ghost enc: nat -> bytes)
    returns (s: bytes)
    requires IsBaseTable(t, c, B) && Encodes(enc, c, B) && |e| == 32
    ensures s == enc(Le(e))
  {
    var p := t.MulB(e);
    ghost var a := Times(CurveGroup(c), Le(e), B);
    assert Stands(c, p, a);
    ComputedNormal(c, p);
    NormalizeStands(c, p, a);
    s := EncodePoint(Normalize(c, p));
    assert s == enc(Le(e));
  }

  /** `Sign` */
  method Sign(c: Curve, t: BaseTable<Point, Affine>, l: nat, sha: Sha512, expanded: bytes, pub: bytes, m: bytes,
              ghost B: Affine, ghost enc: nat -> bytes)
    returns (sig: bytes)
    requires IsBaseTable(t, c, B) && Encodes(enc, c, B)
    requires l > 0 && |expanded| == 64 && forall s :: |sha(s)| == 64
    ensures sig == Signature(enc, l, sha, expanded, pub, m)
  {
    var nonce := Nonce(sha, expanded, m);
    var R := EncodeMultiple(c, t, nonce, B, enc);
    sig := Complete(R, nonce, l, sha, expanded, pub, m);
  }

  /** `Verify` */
  method Verify(c: Curve, t: BaseTable<Point, Affine>, l: nat, publicKey: Point, digest: bytes, sig: bytes,
                ghost B: Affine, ghost A: Affine)
    returns (passed: bool)
    requires IsBaseTable(t, c, B) && l > 0 && |sig| == 64 && Stands(c, publicKey, A)
    ensures passed <==> Accepted(c, B, l, A, digest, sig)
  {
    ghost var g, rep := CurveGroup(c), Standing(c);
    PointsAreSound(c);
    var o := PointOps(c);
    var h := Le(digest);
    var Bs := t.MulB(sig[32..]);
    h := h % l;
    var PKh := Mul(o, publicKey, h, g, rep, A);
    ghost var S, H := Times(g, Le(sig[32..]), B), Times(g, h, A);
    Use(o, g, rep, PKh, PKh, H, H);
    Use(o, g, rep, Bs, o.neg(PKh), S, g.neg(H));
    var diff := o.sum(Bs, o.neg(PKh));
    assert Stands(c, diff, g.add(S, g.neg(H)));
    assert Computed(o, diff);
    ComputedNormal(c, diff);
    NormalizeStands(c, diff, g.add(S, g.neg(H)));
    passed := sig[..32] == EncodePoint(Normalize(c, diff));
  }
}
