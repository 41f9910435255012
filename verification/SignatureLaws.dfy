/** What `Ed25519::Verify` refuses: the signatures it accepts are exactly the solutions of the
    equation S B = R + h A. */
module SignatureLaws {
  import opened Num
  import opened Modular
  import opened Groups
  import opened Edwards
  import opened ScalarMul
  import opened Ed25519
  import opened PointDecoding

  /** For a given S and digest only one R is accepted. */
  lemma OneR(c: Curve, B: Affine, l: nat, A: Affine, digest: bytes, sig: bytes, sig': bytes)
    requires c.q > 1 && l > 0 && |sig| == 64 && |sig'| == 64 && sig[32..] == sig'[32..]
    requires Accepted(c, B, l, A, digest, sig) && Accepted(c, B, l, A, digest, sig')
    ensures sig[..32] == sig'[..32]
  {
  }

  /** Different points have different encodings. */
  lemma EncodeInjective(c: Curve, I: int, e: nat, a: Affine, b: Affine)
    requires Decodable(c, I, e) && OnCurve(c, a) && OnCurve(c, b)
    ensures EncodePoint(a) == EncodePoint(b) <==> a == b
  {
    DecodeOfEncode(c, I, e, a);
    DecodeOfEncode(c, I, e, b);
  }

  //
  // In a group
  //

  /** Moving a term to the other side. */
  lemma Transposed<T(!new)>(g: Group<T>, s: T, t: T, r: T)
    requires Abelian(g) && g.has(s) && g.has(t) && g.has(r)
    ensures g.add(s, g.neg(t)) == r <==> s == g.add(r, t)
  {
    Law(g, t, t, t);
    Law(g, g.neg(t), t, t);
    Law(g, s, g.neg(t), t);
    Law(g, s, s, s);
    if s == g.add(r, t) { Subtract(g, s, r, t); }
  }

  /** B has order l: exactly the multiples of l vanish. */
  ghost predicate HasOrder<T(!new)>(g: Group<T>, B: T, l: nat)
  {
    l > 0 && forall n: nat {:trigger Factor(n)} :: Times(g, n, B) == g.zero <==> n % l == 0
  }

  /** Instances are named explicitly. */
  ghost predicate Factor(n: nat)
  {
    true
  }

  lemma {:induction false} TimesPeriod<T(!new)>(g: Group<T>, B: T, l: nat, n: nat)
    requires Abelian(g) && g.has(B) && HasOrder(g, B, l)
    ensures Times(g, n, B) == Times(g, n % l, B)
  {
    var q, r := n / l, n % l;
    assert n == l * q + r;
    assert Factor(l * q);
    ModUnique(l * q, l, q, 0);
    TimesSum(g, n, l * q, r, B);
    TimesHas(g, r, B);
    Law(g, g.zero, Times(g, r, B), B);
    Law(g, Times(g, r, B), B, B);
  }

  /** Multiples of B agree exactly if the factors agree modulo the order. */
  lemma SameMultiple<T(!new)>(g: Group<T>, B: T, l: nat, m: nat, n: nat)
    requires Abelian(g) && g.has(B) && HasOrder(g, B, l)
    ensures Times(g, m, B) == Times(g, n, B) <==> m % l == n % l
  {
    TimesPeriod(g, B, l, m);
    TimesPeriod(g, B, l, n);
    if m % l <= n % l { SmallMultiples(g, B, l, m % l, n % l); } else { SmallMultiples(g, B, l, n % l, m % l); }
  }

  lemma SmallMultiples<T(!new)>(g: Group<T>, B: T, l: nat, m: nat, n: nat)
    requires Abelian(g) && g.has(B) && HasOrder(g, B, l) && m <= n < l
    ensures Times(g, m, B) == Times(g, n, B) <==> m == n
  {
    var d := n - m;
    var a, b := Times(g, m, B), Times(g, d, B);
    TimesSum(g, n, d, m, B);
    TimesHas(g, m, B);
    TimesHas(g, d, B);
    Law(g, a, a, a);
    Subtract(g, Times(g, n, B), b, a);
    assert Factor(d);
    ModUnique(d, l, 0, d);
  }

  //
  // The equation
  //

  /** R, S and the digest satisfy S B = R + h A, where the signature holds the encoding of R. */
  ghost predicate Solves(c: Curve, B: Affine, l: nat, A: Affine, digest: bytes, sig: bytes, R: Affine)
    requires c.q > 1 && l > 0 && |sig| == 64
  {
    var g := CurveGroup(c);
    && OnCurve(c, R) && sig[..32] == EncodePoint(R)
    && Times(g, Le(sig[32..]), B) == g.add(R, Times(g, Le(digest) % l, A))
  }

  /** A signature is accepted exactly if it encodes a point R with S B = R + h A. */
  lemma AcceptedIff(c: Curve, B: Affine, l: nat, A: Affine, digest: bytes, sig: bytes)
    requires CurveLaw(c) && OnCurve(c, B) && OnCurve(c, A) && l > 0 && |sig| == 64
    ensures Accepted(c, B, l, A, digest, sig) <==> exists R :: Solves(c, B, l, A, digest, sig, R)
  {
    var g := CurveGroup(c);
    var s, t := Times(g, Le(sig[32..]), B), Times(g, Le(digest) % l, A);
    CurveIsAbelian(c);
    TimesHas(g, Le(sig[32..]), B);
    TimesHas(g, Le(digest) % l, A);
    var D := g.add(s, g.neg(t));
    Law(g, t, t, t);
    Law(g, s, g.neg(t), t);
    Transposed(g, s, t, D);
    if Accepted(c, B, l, A, digest, sig) {
      assert Solves(c, B, l, A, digest, sig, D);
    }
    if R :| Solves(c, B, l, A, digest, sig, R) {
      Transposed(g, s, t, R);
      assert R == D;
    }
  }

  /** For a given R and digest, and a base of order l, the accepted S are one residue class modulo l. */
  lemma AcceptedScalars(c: Curve, I: int, e: nat, B: Affine, l: nat, A: Affine, digest: bytes, sig: bytes, sig': bytes)
    requires CurveLaw(c) && Decodable(c, I, e) && OnCurve(c, B) && OnCurve(c, A) && HasOrder(CurveGroup(c), B, l)
    requires |sig| == 64 && |sig'| == 64 && sig[..32] == sig'[..32] && Accepted(c, B, l, A, digest, sig)
    ensures Accepted(c, B, l, A, digest, sig') <==> Le(sig[32..]) % l == Le(sig'[32..]) % l
  {
    var g := CurveGroup(c);
    var m, n, t := Le(sig[32..]), Le(sig'[32..]), Times(g, Le(digest) % l, A);
    CurveIsAbelian(c);
    SameMultiple(g, B, l, m, n);
    TimesHas(g, m, B);
    TimesHas(g, n, B);
    TimesHas(g, Le(digest) % l, A);
    Differences(g, Times(g, m, B), Times(g, n, B), t);
    EncodeInjective(c, I, e, g.add(Times(g, m, B), g.neg(t)), g.add(Times(g, n, B), g.neg(t)));
  }

  lemma Differences<T(!new)>(g: Group<T>, a: T, b: T, t: T)
    requires Abelian(g) && g.has(a) && g.has(b) && g.has(t)
    ensures g.has(g.add(a, g.neg(t))) && g.has(g.add(b, g.neg(t)))
    ensures g.add(a, g.neg(t)) == g.add(b, g.neg(t)) <==> a == b
  {
    Law(g, t, t, t);
    Law(g, a, g.neg(t), t);
    Law(g, b, g.neg(t), t);
    Transposed(g, a, t, g.add(b, g.neg(t)));
    Transposed(g, b, t, g.add(b, g.neg(t)));
  }

  /** Under the key A = a B and with the encoding of R = r B, exactly the S that are h a + r modulo l
      are accepted. */
  lemma AcceptedExactly(c: Curve, I: int, e: nat, B: Affine, l: nat, a: nat, A: Affine, r: nat, R: Affine,
                        digest: bytes, sig: bytes)
    requires CurveLaw(c) && Decodable(c, I, e) && OnCurve(c, B) && HasOrder(CurveGroup(c), B, l) && |sig| == 64
    requires A == Times(CurveGroup(c), a, B) && R == Times(CurveGroup(c), r, B)
    requires OnCurve(c, R) && sig[..32] == EncodePoint(R)
    ensures Accepted(c, B, l, A, digest, sig) <==> Le(sig[32..]) % l == (Le(digest) * a + r) % l
  {
    DifferenceIff(c, B, l, a, A, r, R, digest, sig);
    AcceptedPoint(c, I, e, B, l, A, digest, sig, R);
  }

  lemma DifferenceIff(c: Curve, B: Affine, l: nat, a: nat, A: Affine, r: nat, R: Affine, digest: bytes, sig: bytes)
    requires CurveLaw(c) && OnCurve(c, B) && HasOrder(CurveGroup(c), B, l) && |sig| == 64
    requires A == Times(CurveGroup(c), a, B) && R == Times(CurveGroup(c), r, B)
    ensures OnCurve(c, Difference(c, B, l, A, digest, sig))
    ensures Difference(c, B, l, A, digest, sig) == R <==> Le(sig[32..]) % l == (Le(digest) * a + r) % l
  {
    CurveIsAbelian(c);
    SolutionIff(CurveGroup(c), B, l, a, A, r, R, Le(digest), Le(sig[32..]));
  }

  /** The point computed is the one encoded. */
  lemma AcceptedPoint(c: Curve, I: int, e: nat, B: Affine, l: nat, A: Affine, digest: bytes, sig: bytes, R: Affine)
    requires Decodable(c, I, e) && c.q > 1 && l > 0 && |sig| == 64 && OnCurve(c, R) && sig[..32] == EncodePoint(R)
    requires OnCurve(c, Difference(c, B, l, A, digest, sig))
    ensures Accepted(c, B, l, A, digest, sig) <==> Difference(c, B, l, A, digest, sig) == R
  {
    EncodeInjective(c, I, e, Difference(c, B, l, A, digest, sig), R);
  }

  /** S B - (h mod l) A */
  function Remaining<T(!new)>(g: Group<T>, B: T, l: nat, A: T, h: nat, S: nat): T
    requires l > 0
  {
    g.add(Times(g, S, B), g.neg(Times(g, h % l, A)))
  }

  function Difference(c: Curve, B: Affine, l: nat, A: Affine, digest: bytes, sig: bytes): Affine
    requires c.q > 1 && l > 0 && |sig| == 64
  {
    Remaining(CurveGroup(c), B, l, A, Le(digest), Le(sig[32..]))
  }

  /** S B - (h mod l) a B = r B exactly if S = h a + r modulo l. */
  lemma SolutionIff<T(!new)>(g: Group<T>, B: T, l: nat, a: nat, A: T, r: nat, R: T, h: nat, S: nat)
    requires Abelian(g) && g.has(B) && HasOrder(g, B, l) && A == Times(g, a, B) && R == Times(g, r, B)
    ensures g.has(Remaining(g, B, l, A, h, S))
    ensures Remaining(g, B, l, A, h, S) == R <==> S % l == (h * a + r) % l
  {
    var v: nat := (h % l) * a;
    assert Times(g, h % l, A) == Times(g, v, B) by { TimesTimes(g, h % l, a, B); }
    SumIff(g, B, l, r, v, S);
    ReducedDigest(h, a, r, l);
  }

  lemma SumIff<T(!new)>(g: Group<T>, B: T, l: nat, r: nat, v: nat, S: nat)
    requires Abelian(g) && g.has(B) && HasOrder(g, B, l)
    ensures var D := g.add(Times(g, S, B), g.neg(Times(g, v, B)));
      g.has(D) && (D == Times(g, r, B) <==> S % l == (r + v) % l)
  {
    TimesHas(g, S, B);
    TimesHas(g, r, B);
    TimesHas(g, v, B);
    Differences(g, Times(g, S, B), Times(g, S, B), Times(g, v, B));
    Transposed(g, Times(g, S, B), Times(g, v, B), Times(g, r, B));
    TimesAdd(g, r, v, B);
    SameMultiple(g, B, l, S, r + v);
  }

  lemma ReducedDigest(h: nat, a: nat, r: nat, l: nat)
    requires l > 0
    ensures (r + (h % l) * a) % l == (h * a + r) % l
  {
    EqMod(h, l);
    EqMul(h % l, h, a, a, l);
    EqAdd(r, r, (h % l) * a, h * a, l);
  }

  //
  // Altered signatures
  //

  /** A signature whose R was altered is refused for the same digest. */
  method SignAndAlter(c: Curve, t: BaseTable<Point, Affine>, l: nat, sha: Sha512, expanded: bytes, pub: bytes, m: bytes,
                      publicKey: Point, R: bytes, ghost B: Affine, ghost enc: nat -> bytes)
    returns (sig: bytes, passed: bool)
    requires IsBaseTable(t, c, B) && Signs(c, B, enc, l, sha) && |expanded| == 64
    requires Stands(c, publicKey, Times(CurveGroup(c), Le(expanded[..32]), B)) && |R| == 32
    ensures |sig| == 64 && (passed <==> R == sig[..32])
  {
    sig := Sign(c, t, l, sha, expanded, pub, m, B, enc);
    ghost var A := Times(CurveGroup(c), Le(expanded[..32]), B);
    SignatureAccepted(c, B, enc, l, sha, expanded, pub, m);
    var digest := sha(sig[..32] + pub + m);
    var altered := R + sig[32..];
    assert altered[32..] == sig[32..] && altered[..32] == R;
    passed := Verify(c, t, l, publicKey, digest, altered, B, A);
    if passed {
      OneR(c, B, l, A, digest, sig, altered);
    }
  }

  /** The nonce is made of the second half of the expanded key and the message: it comes from the hash of
      a string that no other message has under that key. */
  lemma NonceOfMessage(sha: Sha512, expanded: bytes, m: bytes, m': bytes)
    requires |expanded| == 64 && forall s :: |sha(s)| == 64
    ensures Nonce(sha, expanded, m) == sha(expanded[32..] + m)[..32]
    ensures Nonce(sha, expanded, m) == Nonce(sha, expanded, m') && m != m' ==>
      expanded[32..] + m != expanded[32..] + m' && sha(expanded[32..] + m)[..32] == sha(expanded[32..] + m')[..32]
  {
    var k := expanded[32..];
    assert (k + m)[|k|..] == m && (k + m')[|k|..] == m';
  }

  /** The two halves of a signature. */
  lemma SignatureHalves(enc: nat -> bytes, l: nat, sha: Sha512, expanded: bytes, pub: bytes, m: bytes, r: nat)
    requires l > 0 && |expanded| == 64 && (forall s :: |sha(s)| == 64) && (forall n :: |enc(n)| == 32)
    requires r == Le(sha(expanded[32..] + m)[..32])
    ensures var sig := Signature(enc, l, sha, expanded, pub, m);
      && sig[..32] == enc(r)
      && sig[32..] == LeBytes((r + Le(sha(enc(r) + pub + m)) * Le(expanded[..32])) % l, 32)
  {
    var h, a := Le(sha(enc(r) + pub + m)), Le(expanded[..32]);
    EqMod(h * a, l);
    EqAdd((h * a) % l, h * a, r, r, l);
    assert Signature(enc, l, sha, expanded, pub, m) == enc(r) + LeBytes(Scalar(h, a, r, l), 32);
  }
}
