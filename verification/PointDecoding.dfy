/** Decoding the points of Ed25519 (lib/libi2pd/Ed25519.cpp): the abscissa is recovered as a square
    root modulo q. */
module PointDecoding {
  import opened Num
  import opened BigEndian
  import opened BitStrings
  import Bits
  import opened Modular
  import opened ModPowers
  import opened Fermat
  import opened SquareRoots
  import opened Groups
  import opened Edwards
  import opened ScalarMul
  import opened Ed25519

  /** The equation that `IsOnCurve` checks, for any representatives. */
  predicate Satisfies(c: Curve, x: int, y: int)
    requires c.q > 0
  {
    (y * y - c.d * (x * x) * (y * y) - x * x - 1) % c.q == 0
  }

  /** The constants that decoding rests on: `I` is a root of -1 and e is `two_252_2`. */
  ghost predicate Decodable(c: Curve, I: int, e: nat)
  {
    && Prime(c.q) && c.q == 8 * e - 3 && c.q <= 128 * Pow(256, 31) && HasInverses(c.q, c.inv)
    && Root(I, -1, c.q) && forall r :: !Root(r, c.d, c.q)
  }

  /** The square that `RecoverX` takes the root of. */
  function SquareOf(c: Curve, y: int): int
  {
    (y * y - 1) * c.inv(c.d * (y * y) + 1)
  }

  /** `RecoverX` */
  function RecoverX(c: Curve, I: int, e: nat, y: int): (x: nat)
    requires c.q > 0
    ensures x <= c.q
  {
    var r := SquareRoot(SquareOf(c, y), I, e, c.q);
    if r % 2 == 1 then c.q - r else r
  }

  /** Its denominator never vanishes. */
  lemma InvertibleDenominator(c: Curve, I: int, e: nat, y: int)
    requires Decodable(c, I, e)
    ensures (c.d * (y * y) + 1) % c.q != 0
  {
    var q, v := c.q, c.d * (y * y);
    ModUnique(0, q, 0, 0);
    ModUnique(1, q, 0, 1);
    if (v + 1) % q == 0 {
      EqSub(v + 1, 0, 1, 1, q);
      if y % q == 0 {
        EqMul(y, 0, y, y, q);
        EqMul(c.d, c.d, y * y, 0, q);
        EqAdd(v, 0, 1, 1, q);
        assert false;
      } else {
        var r := DivideRoots(I, c.d, y, q, c.inv);
        assert false;
      }
    }
  }

  /** A point with ordinate y is on the curve exactly if its abscissa is a root of that square. */
  lemma SatisfiesIff(c: Curve, I: int, e: nat, x: int, y: int)
    requires Decodable(c, I, e)
    ensures Satisfies(c, x, y) <==> Eq(x * x, SquareOf(c, y), c.q)
  {
    var q, m, n := c.q, c.d * (y * y) + 1, y * y - 1;
    InvertibleDenominator(c, I, e, y);
    var v := n * c.inv(m);
    Divide(n, m, q, c.inv);
    EqMod(v, q);
    EqMul(v % q, v, m, m, q);
    assert y * y - c.d * (x * x) * (y * y) - x * x - 1 == n - x * x * m by { CurveTerms(x * x, y * y, c.d); }
    DifferenceVanishes(n, x * x * m, q);
    if Eq(x * x, v, q) {
      EqMul(x * x, v, m, m, q);
    }
    if Eq(n, x * x * m, q) {
      CancelFactor(x * x, v, m, q, c.inv);
    }
  }

  lemma CurveTerms(X: int, Y: int, d: int)
    ensures Y - d * X * Y - X - 1 == Y - 1 - X * (d * Y + 1)
  {
    assert X * (d * Y + 1) == X * (d * Y) + X;
    assert X * (d * Y) == d * X * Y;
  }

  lemma DifferenceVanishes(a: int, b: int, q: int)
    requires q > 0
    ensures (a - b) % q == 0 <==> Eq(a, b, q)
  {
    ModUnique(0, q, 0, 0);
    if (a - b) % q == 0 { EqAdd(a - b, 0, b, b, q); }
    if Eq(a, b, q) { EqSub(a, b, b, b, q); }
  }

  lemma OppositeSquares(r: int, q: int)
    requires q > 0
    ensures Eq((q - r) * (q - r), r * r, q)
  {
    assert (q - r) * (q - r) == r * r + q * (q - 2 * r);
    EqShift((q - r) * (q - r), r * r, q - 2 * r, q);
  }

  /** The abscissa recovered satisfies the equation exactly if any does. */
  lemma RecoverXIff(c: Curve, I: int, e: nat, y: int)
    requires Decodable(c, I, e)
    ensures Satisfies(c, RecoverX(c, I, e, y), y) <==> exists x :: Satisfies(c, x, y)
  {
    var q, v := c.q, SquareOf(c, y);
    var r := SquareRoot(v, I, e, q);
    if x :| Satisfies(c, x, y) {
      SatisfiesIff(c, I, e, x, y);
      EqMod(x, q);
      EqMul(x % q, x, x % q, x, q);
      FindsRoot(v, x % q, I, e, q);
      OppositeSquares(r, q);
      SatisfiesIff(c, I, e, RecoverX(c, I, e, y), y);
    }
  }

  lemma SignsOf(r: int, x: int, q: int)
    requires 0 <= r < q && 0 <= x < q && (Eq(r, x, q) || Eq(r, -x, q))
    ensures r == x || r == q - x
  {
    if Eq(r, x, q) {
      EqSmall(r, x, q);
    } else {
      EqShift(q - x, -x, 1, q);
      if x > 0 { EqSmall(r, q - x, q); }
    }
  }

  /** Of the two abscissas of a point's ordinate the even one is recovered. */
  lemma RecoversX(c: Curve, I: int, e: nat, a: Affine)
    requires Decodable(c, I, e) && OnCurve(c, a)
    ensures RecoverX(c, I, e, a.y) == if a.x % 2 == 0 then a.x else c.q - a.x
  {
    var q, v := c.q, SquareOf(c, a.y);
    var r := SquareRoot(v, I, e, q);
    assert Satisfies(c, a.x, a.y);
    SatisfiesIff(c, I, e, a.x, a.y);
    FindsRoot(v, a.x, I, e, q);
    SameSquares(r, a.x, q);
    SignsOf(r, a.x, q);
    EvenOf(r, a.x, q);
  }

  lemma EvenOf(r: int, x: int, q: int)
    requires q % 2 == 1 && (r == x || r == q - x)
    ensures (if r % 2 == 1 then q - r else r) == if x % 2 == 0 then x else q - x
  {
    OtherParity(q, x);
  }

  lemma OtherParity(q: int, x: int)
    requires q % 2 == 1
    ensures (q - x) % 2 == 1 - x % 2
  {
    var g, h, b := q / 2, x / 2, x % 2;
    assert q == 2 * g + 1 && x == 2 * h + b;
    ModUnique(q - x, 2, g - h, 1 - b);
  }

  /** Whichever of r and q - r has the wanted parity. */
  function WithParity(r: int, odd: bool, q: int): int
  {
    if (r % 2 == 1) != odd then q - r else r
  }

  /** The 255 low bits of an encoding. */
  function Ordinate(s: bytes): nat
    requires |s| == 32
  {
    Le(s[31 := s[31] % 128])
  }

  /** `DecodePoint` */
  function DecodePoint(c: Curve, I: int, e: nat, s: bytes): (p: Point)
    requires c.q > 0 && |s| == 32
    ensures p.x >= 0 && p.y >= 0
  {
    var y := Ordinate(s);
    var x := WithParity(RecoverX(c, I, e, y), s[31] >= 128, c.q);
    Point(x, y, Some(1), Some((x * y) % c.q))
  }

  /** The highest bit is tested by `& 0x80` and cleared by `&= 0x7f`. */
  lemma DecodePointMasks(b: byte)
    ensures Bits.And(b, 128) == (if b >= 128 then 128 else 0) && Bits.And(b, 127) == b % 128
  {
    var n := 7;
    assert Pow(2, n) == 128;
    Bits.AndOnes(b, n, 128);
    var low, high := b % 128, b / 128;
    Bits.AndSplit(low, high, 0, 1, n, 128);
    Bits.AndNone(low);
    assert Bits.And(high, 1) == high;
  }

  /** A number of 255 bits leaves the highest bit clear. */
  lemma TopBitClear(y: nat, n: nat)
    requires y < 128 * Pow(256, n)
    ensures var t := LeBytes(y, n + 1); t[n] < 128 && Le(t) == y
  {
    var t := LeBytes(y, n + 1);
    LeOfLeBytes(y, n + 1);
    ModUnique(y, Pow(256, n + 1), 0, y);
    assert t == t[..n] + [t[n]];
    LePush(t[..n], t[n]);
    if t[n] >= 128 { MulMono(128, t[n], Pow(256, n)); }
  }

  /** The bytes of an encoding: those of y, and the parity of x in the highest bit. */
  lemma EncodedBytes(a: Affine)
    requires 0 <= a.y < 128 * Pow(256, 31)
    ensures var s := EncodePoint(a); Ordinate(s) == a.y && (s[31] >= 128 <==> a.x % 2 == 1)
  {
    var s, t, n := EncodePoint(a), LeBytes(a.y, 32), 31;
    assert t[31] < 128 && Le(t) == a.y by {
      TopBitClear(a.y, n);
    }
    SetAndCleared(t, s, a.x % 2 == 1);
  }

  lemma SetAndCleared(t: bytes, s: bytes, odd: bool)
    requires |t| == 32 && t[31] < 128 && s == if odd then t[31 := t[31] + 128] else t
    ensures s[31 := s[31] % 128] == t && (s[31] >= 128 <==> odd)
  {
  }

  /** The constants of the code: q = 2^255 - 19, two_252_2 = 2^252 - 2 and I = 2^((q - 1)/4). */
  lemma ConstantsDecode(c: Curve, e: nat)
    requires CurveLaw(c) && Prime(c.q) && c.q == Pow(2, 255) - 19 && e == Pow(2, 252) - 2
    ensures 2 * e - 1 == (c.q - 1) / 4 && Decodable(c, ModPow(2, 2 * e - 1, c.q), e)
  {
    ConstantPowers(c.q, e);
    RootDecodes(c, e);
  }

  lemma RootDecodes(c: Curve, e: nat)
    requires CurveLaw(c) && Prime(c.q) && c.q == 8 * e - 3 && c.q <= 128 * Pow(256, 31)
    ensures 2 * e - 1 == (c.q - 1) / 4 && Decodable(c, ModPow(2, 2 * e - 1, c.q), e)
  {
    var i :| Root(i, -1, c.q);
    ConstantRoot(i, c.q, e);
  }

  lemma ConstantPowers(q: int, e: nat)
    requires q == Pow(2, 255) - 19 && e == Pow(2, 252) - 2
    ensures q == 8 * e - 3 && q <= 128 * Pow(256, 31)
  {
    var three, two, n := 3, 2, 252;
    PowAdd(two, three, n);
    assert Pow(two, three) == 8;
    var eight, m, seven := 8, 31, 7;
    Pow256();
    PowerOfTwoPower(eight, 256, m);
    PowAdd(two, seven, eight * m);
    assert Pow(two, seven) == 128;
  }

  /** Decoding inverts encoding on every point of the curve. */
  lemma DecodeOfEncode(c: Curve, I: int, e: nat, a: Affine)
    requires Decodable(c, I, e) && OnCurve(c, a)
    ensures DecodePoint(c, I, e, EncodePoint(a)) == Point(a.x, a.y, Some(1), Some((a.x * a.y) % c.q))
    ensures Stands(c, DecodePoint(c, I, e, EncodePoint(a)), a)
  {
    EncodedBytes(a);
    RecoversX(c, I, e, a);
    OtherParity(c.q, a.x);
    assert WithParity(RecoverX(c, I, e, a.y), a.x % 2 == 1, c.q) == a.x;
    NormalStands(c, a);
  }

  lemma NormalStands(c: Curve, a: Affine)
    requires OnCurve(c, a)
    ensures Stands(c, Point(a.x, a.y, Some(1), Some((a.x * a.y) % c.q)), a)
  {
    EqMod(a.x * a.y, c.q);
    ModUnique(1, c.q, 0, 1);
  }

  /** Every 32 bytes are the encoding of what they are decoded to. */
  lemma EncodeOfDecode(c: Curve, I: int, e: nat, s: bytes)
    requires c.q > 0 && c.q % 2 == 1 && |s| == 32
    ensures var p := DecodePoint(c, I, e, s); EncodePoint(Affine(p.x, p.y)) == s
  {
    var p := DecodePoint(c, I, e, s);
    OtherParity(c.q, RecoverX(c, I, e, Ordinate(s)));
    EncodedOrdinate(Affine(p.x, p.y), s);
  }

  lemma EncodedOrdinate(a: Affine, s: bytes)
    requires |s| == 32 && a.y == Ordinate(s) && (a.x % 2 == 1 <==> s[31] >= 128)
    ensures EncodePoint(a) == s
  {
    var t := s[31 := s[31] % 128];
    WholeBytes(t, 32);
    assert s == if s[31] >= 128 then t[31 := t[31] + 128] else t;
  }

  lemma WholeBytes(t: bytes, n: nat)
    requires |t| == n
    ensures LeBytes(Le(t), n) == t
  {
    LeBytesOfLe(t, n);
    assert t[..n] == t;
  }

  //
  // The method
  //

  /** `DecodePoint`, from the byte string turned round. */
  method Decode(c: Curve, I: int, e: nat, buf: bytes) returns (p: Point)
    requires c.q > 0 && |buf| == 32
    ensures p == DecodePoint(c, I, e, buf)
  {
    var buf1 := new byte[32];
    for i := 0 to 16
      invariant forall j :: 0 <= j < i ==> buf1[j] == buf[31 - j] && buf1[31 - j] == buf[j]
    {
      buf1[i] := buf[31 - i];
      buf1[31 - i] := buf[i];
    }
    assert buf1[0] == buf[31];
    var isHighestBitSet := buf1[0] >= 128;
    if isHighestBitSet {
      buf1[0] := buf1[0] % 128;
    }
    TurnedRound(buf1[..], buf[31 := buf[31] % 128]);
    var y := Be(buf1[..]);
    var x: int := RecoverX(c, I, e, y);
    if (x % 2 == 1) != isHighestBitSet {
      x := c.q - x;
    }
    p := Point(x, y, Some(1), Some((x * y) % c.q));
  }

  /** `EDDSA25519Verifier`: the key is decoded, the digest taken and the signature verified. */
  method VerifyBytes(c: Curve, I: int, e: nat, t: BaseTable<Point, Affine>, l: nat, sha: Sha512, pub: bytes, m: bytes,
                     sig: bytes, ghost B: Affine, ghost A: Affine)
    returns (passed: bool)
    requires Decodable(c, I, e) && IsBaseTable(t, c, B) && l > 0 && |sig| == 64
    requires OnCurve(c, A) && pub == EncodePoint(A)
    ensures passed <==> Accepted(c, B, l, A, sha(sig[..32] + pub + m), sig)
  {
    var publicKey := Decode(c, I, e, pub);
    DecodeOfEncode(c, I, e, A);
    passed := Verify(c, t, l, publicKey, sha(sig[..32] + pub + m), sig, B, A);
  }

  /** Whoever is given the bytes of a public key accepts what its owner signs. */
  method SignAndVerify(c: Curve, I: int, e: nat, t: BaseTable<Point, Affine>, l: nat, sha: Sha512, expanded: bytes,
                       m: bytes, ghost B: Affine, ghost enc: nat -> bytes)
    returns (pub: bytes, sig: bytes, passed: bool)
    requires Decodable(c, I, e) && IsBaseTable(t, c, B) && Signs(c, B, enc, l, sha) && |expanded| == 64
    ensures pub == enc(Le(expanded[..32])) && sig == Signature(enc, l, sha, expanded, pub, m) && passed
  {
    pub := EncodeMultiple(c, t, expanded[..32], B, enc);
    sig := Sign(c, t, l, sha, expanded, pub, m, B, enc);
    ghost var A := SignedFor(c, B, enc, l, sha, expanded, pub, m);
    passed := VerifyBytes(c, I, e, t, l, sha, pub, m, sig, B, A);
  }

  /** l B = 0, and the encodings and the hash are as wide as they should be. */
  ghost predicate Signs(c: Curve, B: Affine, enc: nat -> bytes, l: nat, sha: Sha512)
  {
    && c.q > 1 && Encodes(enc, c, B) && 0 < l <= Pow(256, 32) && Times(CurveGroup(c), l, B) == Affine(0, 1)
    && forall s {:trigger sha(s)} :: |sha(s)| == 64
  }

  lemma SignedFor(c: Curve, B: Affine, enc: nat -> bytes, l: nat, sha: Sha512, expanded: bytes, pub: bytes, m: bytes)
    returns (A: Affine)
    requires CurveLaw(c) && OnCurve(c, B) && Signs(c, B, enc, l, sha) && |expanded| == 64
    requires pub == enc(Le(expanded[..32]))
    ensures var sig := Signature(enc, l, sha, expanded, pub, m);
      && OnCurve(c, A) && pub == EncodePoint(A)
      && |sig| == 64 && Accepted(c, B, l, A, sha(sig[..32] + pub + m), sig)
  {
    A := Times(CurveGroup(c), Le(expanded[..32]), B);
    SignatureAccepted(c, B, enc, l, sha, expanded, pub, m);
  }

  lemma {:induction false} TurnedRound(s: bytes, t: bytes)
    requires |s| == |t| && forall j :: 0 <= j < |s| ==> s[j] == t[|s| - 1 - j]
    ensures Be(s) == Le(t)
  {
    if s != [] {
      var u, v := s[..|s| - 1], t[1..];
      TurnedRound(u, v);
      assert s[|s| - 1] == t[0];
    }
  }
}
