/** The twisted Edwards curve -x^2 + y^2 = 1 + d x^2 y^2 modulo q, and the extended-coordinate
    formulas that compute on it without division. */
module Edwards {
  import opened Num
  import opened Modular
  import opened Groups

  /** q and d are the constants of `Ed25519`; inv is `BN_mod_inverse` modulo q. */
  datatype Curve = Curve(q: int, d: int, inv: int -> int)

  datatype Affine = Affine(x: int, y: int)

  /** `EDDSAPoint`: projective coordinates whose z and t may be absent. */
  datatype Point = Point(x: int, y: int, z: Option<int>, t: Option<int>) {
    function Z(): int { if z.Some? then z.value else 1 }
    function T(): int { if t.Some? then t.value else x * y }
  }

  //
  // The formulas of the code
  //

  /** `Sum` */
  function Sum(c: Curve, p: Point, r: Point): Point
    requires c.q > 0
  {
    var A := p.x * r.x;
    var B := p.y * r.y;
    var C := p.T() * r.T() * c.d;
    var D := if p.z.Some? then (if r.z.Some? then p.z.value * r.z.value else p.z.value)
             else if r.z.Some? then r.z.value else 1;
    var E := (p.x + p.y) * (r.x + r.y) - A - B;
    var F, G, H := D - C, D + C, B + A;
    Point((E * F) % c.q, (G * H) % c.q, Some((F * G) % c.q), Some((E * H) % c.q))
  }

  /** `Double` */
  function Double(c: Curve, p: Point): Point
    requires c.q > 0
  {
    var A, B := p.x * p.x, p.y * p.y;
    var t := if p.t.Some? then p.t.value * p.t.value else (p.x * p.y) * (p.x * p.y);
    var C := t * c.d;
    var D := if p.z.Some? then p.z.value * p.z.value else 1;
    var E := 2 * (p.x * p.y);
    var F, G, H := D - C, D + C, B + A;
    Point((E * F) % c.q, (G * H) % c.q, Some((F * G) % c.q), Some((E * H) % c.q))
  }

  /** `EDDSAPoint::operator-` */
  function Negate(p: Point): Point
  {
    Point(-p.x, p.y, p.z, if p.t.Some? then Some(-p.t.value) else None)
  }

  /** Doubling is adding a point to itself, coordinate by coordinate. */
  lemma DoubleIsSum(c: Curve, p: Point)
    requires c.q > 0
    ensures Double(c, p) == Sum(c, p, p)
  {
    Expand(p.x, p.y, p.x, p.y);
    assert p.y * p.x == p.x * p.y;
  }

  /** Every sum satisfies x y = z t, whatever was added. */
  lemma SumOnQuadric(c: Curve, p: Point, r: Point)
    requires c.q > 0
    ensures var s := Sum(c, p, r); Eq(s.x * s.y, s.Z() * s.T(), c.q)
  {
    var q := c.q;
    var A, B := p.x * r.x, p.y * r.y;
    var C := p.T() * r.T() * c.d;
    var D := p.Z() * r.Z();
    var E := (p.x + p.y) * (r.x + r.y) - A - B;
    Quadric(E, D - C, D + C, B + A, q);
  }

  lemma Quadric(E: int, F: int, G: int, H: int, q: int)
    requires q > 0
    ensures Eq((E * F) % q * ((G * H) % q), (F * G) % q * ((E * H) % q), q)
  {
    EqMod(E * F, q);
    EqMod(G * H, q);
    EqMod(F * G, q);
    EqMod(E * H, q);
    EqMul((E * F) % q, E * F, (G * H) % q, G * H, q);
    EqMul((F * G) % q, F * G, (E * H) % q, E * H, q);
    assert E * F * (G * H) == F * G * (E * H);
  }

  //
  // The affine law
  //

  /** d x1 x2 y1 y2 */
  function Cross(c: Curve, a: Affine, b: Affine): int
  {
    c.d * (a.x * a.y) * (b.x * b.y)
  }

  function AffineAdd(c: Curve, a: Affine, b: Affine): Affine
    requires c.q > 0
  {
    var k := Cross(c, a, b);
    Affine(((a.x * b.y + a.y * b.x) * c.inv(1 + k)) % c.q, ((a.y * b.y + a.x * b.x) * c.inv(1 - k)) % c.q)
  }

  function AffineNeg(c: Curve, a: Affine): Affine
    requires c.q > 0
  {
    Affine((-a.x) % c.q, a.y)
  }

  /** `IsOnCurve`, for reduced coordinates. */
  predicate OnCurve(c: Curve, a: Affine)
  {
    && c.q > 1 && 0 <= a.x < c.q && 0 <= a.y < c.q
    && (a.y * a.y - c.d * (a.x * a.x) * (a.y * a.y) - a.x * a.x - 1) % c.q == 0
  }

  /** What the projective point p stands for. */
  ghost predicate Rep(c: Curve, p: Point, a: Affine)
    requires c.q > 0
  {
    && p.Z() % c.q != 0
    && Eq(p.x, a.x * p.Z(), c.q) && Eq(p.y, a.y * p.Z(), c.q)
    && Eq(p.T(), a.x * a.y * p.Z(), c.q)
  }

  lemma SumParts(c: Curve, p: Point, r: Point, a: Affine, b: Affine)
    requires c.q > 0 && Rep(c, p, a) && Rep(c, r, b)
    ensures var W := p.Z() * r.Z();
      && Eq((p.x + p.y) * (r.x + r.y) - p.x * r.x - p.y * r.y, (a.x * b.y + a.y * b.x) * W, c.q)
      && Eq(p.y * r.y + p.x * r.x, (a.y * b.y + a.x * b.x) * W, c.q)
      && Eq(p.T() * r.T() * c.d, Cross(c, a, b) * W, c.q)
  {
    var q, Z, Y := c.q, p.Z(), r.Z();
    EqMul(p.x, a.x * Z, r.y, b.y * Y, q);
    EqMul(p.y, a.y * Z, r.x, b.x * Y, q);
    EqMul(p.x, a.x * Z, r.x, b.x * Y, q);
    EqMul(p.y, a.y * Z, r.y, b.y * Y, q);
    EqMul(p.T(), a.x * a.y * Z, r.T(), b.x * b.y * Y, q);
    EqMul(p.T() * r.T(), (a.x * a.y * Z) * (b.x * b.y * Y), c.d, c.d, q);
    EqAdd(p.x * r.y, (a.x * Z) * (b.y * Y), p.y * r.x, (a.y * Z) * (b.x * Y), q);
    EqAdd(p.y * r.y, (a.y * Z) * (b.y * Y), p.x * r.x, (a.x * Z) * (b.x * Y), q);
    SumPolynomials(p.x, p.y, r.x, r.y, a.x, a.y, b.x, b.y, Z, Y, c.d);
  }

  lemma SumPolynomials(px: int, py: int, rx: int, ry: int, x1: int, y1: int, x2: int, y2: int, Z: int, Y: int, d: int)
    ensures (px + py) * (rx + ry) - px * rx - py * ry == px * ry + py * rx
    ensures (x1 * Z) * (y2 * Y) + (y1 * Z) * (x2 * Y) == (x1 * y2 + y1 * x2) * (Z * Y)
    ensures (y1 * Z) * (y2 * Y) + (x1 * Z) * (x2 * Y) == (y1 * y2 + x1 * x2) * (Z * Y)
    ensures ((x1 * y1 * Z) * (x2 * y2 * Y)) * d == d * (x1 * y1) * (x2 * y2) * (Z * Y)
  {
    Regroup(x1, y2, Z, Y);
    Regroup(y1, x2, Z, Y);
    Regroup(y1, y2, Z, Y);
    Regroup(x1, x2, Z, Y);
    Regroup(x1 * y1, x2 * y2, Z, Y);
    MulDistRight(x1 * y2, y1 * x2, Z * Y);
    MulDistRight(y1 * y2, x1 * x2, Z * Y);
    Rotate(x1 * y1, x2 * y2, Z * Y, d);
    Expand(px, py, rx, ry);
  }

  lemma Rotate(a: int, b: int, c: int, d: int)
    ensures a * b * c * d == d * a * b * c
  {
    assert a * b * c * d == d * (a * b * c);
    assert d * (a * b) * c == d * (a * b * c);
  }

  lemma Expand(a: int, b: int, c: int, d: int)
    ensures (a + b) * (c + d) - a * c - b * d == a * d + b * c
  {
  }

  lemma Regroup(a: int, b: int, c: int, d: int)
    ensures (a * c) * (b * d) == a * b * (c * d)
  {
  }

  /** The projective sum stands for the affine sum, whenever the denominators do not vanish. */
  lemma SumRep(c: Curve, p: Point, r: Point, a: Affine, b: Affine)
    requires HasInverses(c.q, c.inv) && Rep(c, p, a) && Rep(c, r, b)
    requires (1 + Cross(c, a, b)) % c.q != 0 && (1 - Cross(c, a, b)) % c.q != 0
    ensures Rep(c, Sum(c, p, r), AffineAdd(c, a, b))
  {
    var q, k, W := c.q, Cross(c, a, b), p.Z() * r.Z();
    var E := (p.x + p.y) * (r.x + r.y) - p.x * r.x - p.y * r.y;
    var C, H := p.T() * r.T() * c.d, p.y * r.y + p.x * r.x;
    var F, G := W - C, W + C;
    var e, h := a.x * b.y + a.y * b.x, a.y * b.y + a.x * b.x;
    SumParts(c, p, r, a, b);
    EqSub(W, W, C, k * W, q);
    EqAdd(W, W, C, k * W, q);
    ProductNonZero(p.Z(), r.Z(), q, c.inv);
    SumQuotients(E, F, G, H, e, h, k, W, q, c.inv);
  }

  lemma SumQuotients(E: int, F: int, G: int, H: int, e: int, h: int, k: int, W: int, q: int, inv: int -> int)
    requires HasInverses(q, inv) && W % q != 0 && (1 + k) % q != 0 && (1 - k) % q != 0
    requires Eq(E, e * W, q) && Eq(H, h * W, q) && Eq(F, W - k * W, q) && Eq(G, W + k * W, q)
    ensures var x, y, Z := (e * inv(1 + k)) % q, (h * inv(1 - k)) % q, (F * G) % q;
      && Z % q != 0
      && Eq((E * F) % q, x * Z, q) && Eq((G * H) % q, y * Z, q) && Eq((E * H) % q, x * y * Z, q)
  {
    var x, y, Z := (e * inv(1 + k)) % q, (h * inv(1 - k)) % q, (F * G) % q;
    var S := W * W;
    Divide(e, 1 + k, q, inv);
    Divide(h, 1 - k, q, inv);
    QuotientZ(F, G, k, W, q, inv);
    QuotientX(E, F, e, k, x, W, Z, q);
    QuotientY(G, H, h, k, y, W, Z, q);
    QuotientT(E, H, e, h, k, x, y, W, Z, q);
  }

  lemma QuotientZ(F: int, G: int, k: int, W: int, q: int, inv: int -> int)
    requires HasInverses(q, inv) && W % q != 0 && (1 + k) % q != 0 && (1 - k) % q != 0
    requires Eq(F, W - k * W, q) && Eq(G, W + k * W, q)
    ensures ((F * G) % q) % q != 0
    ensures Eq((F * G) % q, (1 + k) * (1 - k) * (W * W), q)
  {
    EqMul(F, W - k * W, G, W + k * W, q);
    EqMod(F * G, q);
    assert (W - k * W) * (W + k * W) == (1 + k) * (1 - k) * (W * W);
    ProductNonZero(W, W, q, inv);
    ProductNonZero(1 + k, 1 - k, q, inv);
    ProductNonZero((1 + k) * (1 - k), W * W, q, inv);
  }

  lemma QuotientX(E: int, F: int, e: int, k: int, x: int, W: int, Z: int, q: int)
    requires q > 0 && Eq(E, e * W, q) && Eq(F, W - k * W, q) && Eq(x * (1 + k), e, q)
    requires Eq(Z, (1 + k) * (1 - k) * (W * W), q)
    ensures Eq((E * F) % q, x * Z, q)
  {
    EqMod(E * F, q);
    EqMul(E, e * W, F, W - k * W, q);
    EqMul(x, x, Z, (1 + k) * (1 - k) * (W * W), q);
    EqMul(x * (1 + k), e, (1 - k) * (W * W), (1 - k) * (W * W), q);
    assert (e * W) * (W - k * W) == e * ((1 - k) * (W * W));
    assert x * ((1 + k) * (1 - k) * (W * W)) == x * (1 + k) * ((1 - k) * (W * W));
  }

  lemma QuotientY(G: int, H: int, h: int, k: int, y: int, W: int, Z: int, q: int)
    requires q > 0 && Eq(H, h * W, q) && Eq(G, W + k * W, q) && Eq(y * (1 - k), h, q)
    requires Eq(Z, (1 + k) * (1 - k) * (W * W), q)
    ensures Eq((G * H) % q, y * Z, q)
  {
    EqMod(G * H, q);
    EqMul(G, W + k * W, H, h * W, q);
    EqMul(y, y, Z, (1 + k) * (1 - k) * (W * W), q);
    EqMul(y * (1 - k), h, (1 + k) * (W * W), (1 + k) * (W * W), q);
    assert (W + k * W) * (h * W) == h * ((1 + k) * (W * W));
    assert y * ((1 + k) * (1 - k) * (W * W)) == y * (1 - k) * ((1 + k) * (W * W));
  }

  lemma QuotientT(E: int, H: int, e: int, h: int, k: int, x: int, y: int, W: int, Z: int, q: int)
    requires q > 0 && Eq(E, e * W, q) && Eq(H, h * W, q)
    requires Eq(x * (1 + k), e, q) && Eq(y * (1 - k), h, q)
    requires Eq(Z, (1 + k) * (1 - k) * (W * W), q)
    ensures Eq((E * H) % q, x * y * Z, q)
  {
    EqMod(E * H, q);
    EqMul(E, e * W, H, h * W, q);
    EqMul(x * y, x * y, Z, (1 + k) * (1 - k) * (W * W), q);
    EqMul(x * (1 + k), e, y * (1 - k), h, q);
    EqMul(x * (1 + k) * (y * (1 - k)), e * h, W * W, W * W, q);
    Regroup(e, h, W, W);
    Regroup(x, y, 1 + k, 1 - k);
    MulAssoc(x * y, (1 + k) * (1 - k), W * W);
  }

  //
  // The sum of points on the curve is on the curve
  //

  /** Squares of the two numerators: a and b are squares of x and y, and P is x1 x2 y1 y2. */
  lemma SquareSums(a1: int, b1: int, a2: int, b2: int, P: int)
    requires P * P == a1 * b1 * (a2 * b2)
    ensures var S, T := a1 * b2 + b1 * a2 + 2 * P, b1 * b2 + a1 * a2 + 2 * P;
      && T - S == (b1 - a1) * (b2 - a2)
      && T + S == (a1 + b1) * (a2 + b2) + 4 * P
      && S * T == a1 * b1 * ((a2 + b2) * (a2 + b2)) + a2 * b2 * ((a1 + b1) * (a1 + b1))
        + 2 * P * ((a1 + b1) * (a2 + b2))
  {
    var v, w := a1 * b2 + b1 * a2, b1 * b2 + a1 * a2;
    assert v + w == (a1 + b1) * (a2 + b2);
    assert (v + 2 * P) * (w + 2 * P) == v * w + 2 * P * (v + w) + 4 * (P * P);
    CrossProducts(a1, b1, a2, b2);
  }

  lemma CrossProducts(a1: int, b1: int, a2: int, b2: int)
    ensures (a1 * b2 + b1 * a2) * (b1 * b2 + a1 * a2) + 4 * (a1 * b1 * (a2 * b2))
      == a1 * b1 * ((a2 + b2) * (a2 + b2)) + a2 * b2 * ((a1 + b1) * (a1 + b1))
  {
    var m1, m2 := a1 * b1, a2 * b2;
    assert (a1 * b2) * (b1 * b2) == m1 * (b2 * b2) by { Regroup(a1, b1, b2, b2); }
    assert (a1 * b2) * (a1 * a2) == m2 * (a1 * a1) by { Regroup(a1, a1, b2, a2); Swapped(a1 * a1, b2, a2); }
    assert (b1 * a2) * (b1 * b2) == m2 * (b1 * b1) by { Regroup(b1, b1, a2, b2); Swapped(b1 * b1, a2, b2); }
    assert (b1 * a2) * (a1 * a2) == m1 * (a2 * a2) by { Regroup(b1, a1, a2, a2); Swapped(a2 * a2, b1, a1); }
    assert (a1 * b2 + b1 * a2) * (b1 * b2 + a1 * a2)
      == m1 * (b2 * b2) + m2 * (a1 * a1) + m2 * (b1 * b1) + m1 * (a2 * a2) by {
      FourTerms(a1 * b2, b1 * a2, b1 * b2, a1 * a2);
    }
    SquareOfSum(m1, a2, b2);
    SquareOfSum(m2, a1, b1);
    assert m1 * m2 == m2 * m1;
  }

  lemma Swapped(m: int, a: int, b: int)
    ensures m * (a * b) == b * a * m && m * (a * b) == a * b * m
  {
  }

  lemma FourTerms(a: int, b: int, c: int, d: int)
    ensures (a + b) * (c + d) == a * c + a * d + b * c + b * d
  {
  }

  lemma SquareOfSum(m: int, a: int, b: int)
    ensures m * ((a + b) * (a + b)) == m * (a * a) + m * (b * b) + 2 * (m * (a * b))
  {
    assert (a + b) * (a + b) == a * a + b * b + 2 * (a * b);
  }

  lemma SquareOfDifference(a: int, b: int)
    ensures (a + b) * (a + b) == (b - a) * (b - a) + 4 * (a * b)
  {
  }

  lemma Combine(S: int, T: int, k: int)
    ensures T * ((1 + k) * (1 + k)) - S * ((1 - k) * (1 - k)) == (T - S) * (1 + k * k) + 2 * k * (T + S)
  {
    assert (1 + k) * (1 + k) == 1 + k * k + 2 * k;
    assert (1 - k) * (1 - k) == 1 + k * k - 2 * k;
    assert T * (1 + k * k + 2 * k) == T * (1 + k * k) + T * (2 * k);
    assert S * (1 + k * k - 2 * k) == S * (1 + k * k) - S * (2 * k);
  }

  /** The curve equation of the sum, times its denominators, in terms of m = x y and D = y - x,
      both squared. */
  lemma Numerator(S: int, T: int, P: int, d: int, m1: int, m2: int, s1: int, s2: int, D1: int, D2: int)
    requires T - S == D1 * D2 && T + S == s1 * s2 + 4 * P
    requires S * T == m1 * (s2 * s2) + m2 * (s1 * s1) + 2 * P * (s1 * s2)
    requires P * P == m1 * m2 && s1 * s1 == D1 * D1 + 4 * m1 && s2 * s2 == D2 * D2 + 4 * m2
    ensures var k := d * P;
      T * ((1 + k) * (1 + k)) - d * (S * T) - S * ((1 - k) * (1 - k)) ==
      D1 * D2 * (1 + k * k) - d * m1 * (D2 * D2) - d * m2 * (D1 * D1)
  {
    var k, r := d * P, s1 * s2;
    Combine(S, T, k);
    assert 2 * k * (r + 4 * P) == 2 * (d * (P * r)) + 8 * (d * (P * P));
    assert m1 * (s2 * s2) == m1 * (D2 * D2) + 4 * (m1 * m2);
    assert m2 * (s1 * s1) == m2 * (D1 * D1) + 4 * (m1 * m2);
    assert d * (S * T) == d * (m1 * (D2 * D2)) + d * (m2 * (D1 * D1)) + 8 * (d * (m1 * m2)) + 2 * (d * (P * r)) by {
      assert 2 * P * r == 2 * (P * r);
      DistributeFour(d, m1 * (D2 * D2), m2 * (D1 * D1), m1 * m2, P * r);
    }
    MulAssoc(d, m1, D2 * D2);
    MulAssoc(d, m2, D1 * D1);
  }

  lemma DistributeFour(d: int, a: int, b: int, c: int, e: int)
    ensures d * (a + b + 8 * c + 2 * e) == d * a + d * b + 8 * (d * c) + 2 * (d * e)
  {
  }

  /** On the curve D = 1 + u, and then the numerator vanishes. */
  lemma Vanishes(u1: int, u2: int, w: int)
    requires w == u1 * u2
    ensures (1 + u1) * (1 + u2) * (1 + w) - u1 * ((1 + u2) * (1 + u2)) - u2 * ((1 + u1) * (1 + u1)) == (1 - w) * (1 - w)
  {
    var t := u1 + u2;
    assert (1 + u1) * (1 + u2) == 1 + t + w;
    assert (1 + t + w) * (1 + w) == 1 + t + 2 * w + t * w + w * w;
    assert u1 * ((1 + u2) * (1 + u2)) == u1 + 2 * w + w * u2 by {
      assert (1 + u2) * (1 + u2) == 1 + 2 * u2 + u2 * u2;
      assert u1 * (u2 * u2) == w * u2;
    }
    assert u2 * ((1 + u1) * (1 + u1)) == u2 + 2 * w + w * u1 by {
      assert (1 + u1) * (1 + u1) == 1 + 2 * u1 + u1 * u1;
      assert u2 * (u1 * u1) == w * u1;
    }
    assert t * w == w * u1 + w * u2;
  }

  lemma OnCurveNumerator(D1: int, D2: int, u1: int, u2: int, w: int, q: int)
    requires q > 0 && w == u1 * u2 && Eq(D1, 1 + u1, q) && Eq(D2, 1 + u2, q)
    ensures Eq(D1 * D2 * (1 + w) - u1 * (D2 * D2) - u2 * (D1 * D1), (1 - w) * (1 - w), q)
  {
    EqMul(D1, 1 + u1, D2, 1 + u2, q);
    EqMul(D1 * D2, (1 + u1) * (1 + u2), 1 + w, 1 + w, q);
    EqMul(D2, 1 + u2, D2, 1 + u2, q);
    EqMul(u1, u1, D2 * D2, (1 + u2) * (1 + u2), q);
    EqMul(D1, 1 + u1, D1, 1 + u1, q);
    EqMul(u2, u2, D1 * D1, (1 + u1) * (1 + u1), q);
    EqSub(D1 * D2 * (1 + w), (1 + u1) * (1 + u2) * (1 + w), u1 * (D2 * D2), u1 * ((1 + u2) * (1 + u2)), q);
    EqSub(D1 * D2 * (1 + w) - u1 * (D2 * D2), (1 + u1) * (1 + u2) * (1 + w) - u1 * ((1 + u2) * (1 + u2)),
          u2 * (D1 * D1), u2 * ((1 + u1) * (1 + u1)), q);
    Vanishes(u1, u2, w);
  }

  lemma SquareOfPair(x: int, y: int, z: int, t: int)
    ensures (x * t + y * z) * (x * t + y * z) == (x * x) * (t * t) + (y * y) * (z * z) + 2 * (x * y * (z * t))
    ensures x * y * (z * t) * (x * y * (z * t)) == (x * x) * (y * y) * ((z * z) * (t * t))
  {
    var e, f := x * t, y * z;
    assert (e + f) * (e + f) == e * e + f * f + 2 * (e * f);
    Regroup(x, x, t, t);
    Regroup(y, y, z, z);
    assert (x * t) * (y * z) == x * y * (z * t);
    Regroup(x, y, x, y);
    Regroup(z, t, z, t);
    Regroup(x * y, z * t, x * y, z * t);
  }

  lemma SquaresEquation(a1: int, b1: int, a2: int, b2: int, P: int, S: int, T: int, d: int, q: int)
    requires q > 0 && P * P == a1 * b1 * (a2 * b2)
    requires S == a1 * b2 + b1 * a2 + 2 * P && T == b1 * b2 + a1 * a2 + 2 * P
    requires Eq(b1 - a1, 1 + d * (a1 * b1), q) && Eq(b2 - a2, 1 + d * (a2 * b2), q)
    ensures var k := d * P;
      Eq(T * ((1 + k) * (1 + k)) - d * (S * T) - S * ((1 - k) * (1 - k)), (1 - k * k) * (1 - k * k), q)
  {
    var m1, m2, k := a1 * b1, a2 * b2, d * P;
    SquareSums(a1, b1, a2, b2, P);
    SquareOfDifference(a1, b1);
    SquareOfDifference(a2, b2);
    Numerator(S, T, P, d, m1, m2, a1 + b1, a2 + b2, b1 - a1, b2 - a2);
    ProductOfSquares(d, P, m1, m2);
    OnCurveNumerator(b1 - a1, b2 - a2, d * m1, d * m2, k * k, q);
  }

  lemma ProductOfSquares(d: int, P: int, m1: int, m2: int)
    requires P * P == m1 * m2
    ensures d * P * (d * P) == d * m1 * (d * m2)
  {
    Regroup(d, d, P, P);
    Regroup(d, d, m1, m2);
  }

  /** The equation of the curve for the sum, cleared of denominators. */
  lemma SumEquation(x1: int, y1: int, x2: int, y2: int, d: int, k: int, q: int)
    requires q > 0 && k == d * (x1 * y1 * (x2 * y2))
    requires Eq(y1 * y1 - x1 * x1, 1 + d * ((x1 * x1) * (y1 * y1)), q)
    requires Eq(y2 * y2 - x2 * x2, 1 + d * ((x2 * x2) * (y2 * y2)), q)
    ensures var e, h := x1 * y2 + y1 * x2, y1 * y2 + x1 * x2;
      Eq((h * h) * ((1 + k) * (1 + k)) - d * ((e * e) * (h * h)) - (e * e) * ((1 - k) * (1 - k)),
         (1 - k * k) * (1 - k * k), q)
  {
    var P := x1 * y1 * (x2 * y2);
    SquareOfPair(x1, y1, x2, y2);
    SquareOfPair(y1, x1, x2, y2);
    assert y1 * x1 == x1 * y1;
    var e, h := x1 * y2 + y1 * x2, y1 * y2 + x1 * x2;
    SquaresEquation(x1 * x1, y1 * y1, x2 * x2, y2 * y2, P, e * e, h * h, d, q);
  }

  lemma ClearedIdentity(x: int, y: int, A: int, B: int, d: int)
    ensures A * B * (A * B) * (y * y - d * (x * x) * (y * y) - x * x - 1) ==
      (y * B) * (y * B) * (A * A) - d * ((x * A) * (x * A) * ((y * B) * (y * B))) - (x * A) * (x * A) * (B * B)
      - A * B * (A * B)
  {
    var X, Y, M := x * x, y * y, A * B * (A * B);
    Regroup(x, x, A, A);
    Regroup(y, y, B, B);
    Regroup(A, A, B, B);
    ClearedTerms(X, Y, A * A, B * B, d, M);
  }

  lemma ClearedTerms(X: int, Y: int, AA: int, BB: int, d: int, M: int)
    requires M == AA * BB
    ensures M * (Y - d * X * Y - X - 1) == Y * BB * AA - d * (X * AA * (Y * BB)) - X * AA * BB - M
  {
    assert M * (Y - d * X * Y - X - 1) == M * Y - M * (d * X * Y) - M * X - M;
    assert Y * BB * AA == M * Y && X * AA * BB == M * X;
    assert X * AA * (Y * BB) == M * (X * Y);
    assert d * X * Y == d * (X * Y) && d * (M * (X * Y)) == M * (d * (X * Y));
  }

  /** Dividing by denominators that do not vanish gives the equation of the curve. */
  lemma DividedEquation(x: int, y: int, e: int, h: int, k: int, d: int, q: int, inv: int -> int)
    requires HasInverses(q, inv) && (1 + k) % q != 0 && (1 - k) % q != 0
    requires Eq(x * (1 + k), e, q) && Eq(y * (1 - k), h, q)
    requires Eq((h * h) * ((1 + k) * (1 + k)) - d * ((e * e) * (h * h)) - (e * e) * ((1 - k) * (1 - k)),
                (1 - k * k) * (1 - k * k), q)
    ensures (y * y - d * (x * x) * (y * y) - x * x - 1) % q == 0
  {
    var A, B := 1 + k, 1 - k;
    var F := y * y - d * (x * x) * (y * y) - x * x - 1;
    assert A * B == 1 - k * k;
    ClearedIdentity(x, y, A, B, d);
    ClearedResidue(x * A, e, y * B, h, A * A, B * B, d, q);
    var L := (y * B) * (y * B) * (A * A) - d * ((x * A) * (x * A) * ((y * B) * (y * B))) - (x * A) * (x * A) * (B * B);
    EqSub(L, A * B * (A * B), A * B * (A * B), A * B * (A * B), q);
    ProductNonZero(A, B, q, inv);
    ProductNonZero(A * B, A * B, q, inv);
    ZeroFactor(A * B * (A * B), F, q, inv);
    ModUnique(0, q, 0, 0);
  }

  lemma ClearedResidue(X: int, e: int, Y: int, h: int, AA: int, BB: int, d: int, q: int)
    requires q > 0 && Eq(X, e, q) && Eq(Y, h, q)
    ensures Eq(Y * Y * AA - d * (X * X * (Y * Y)) - X * X * BB, h * h * AA - d * (e * e * (h * h)) - e * e * BB, q)
  {
    EqMul(X, e, X, e, q);
    EqMul(Y, h, Y, h, q);
    EqMul(Y * Y, h * h, AA, AA, q);
    EqMul(X * X, e * e, Y * Y, h * h, q);
    EqMul(d, d, X * X * (Y * Y), e * e * (h * h), q);
    EqMul(X * X, e * e, BB, BB, q);
    EqSub(Y * Y * AA, h * h * AA, d * (X * X * (Y * Y)), d * (e * e * (h * h)), q);
    EqSub(Y * Y * AA - d * (X * X * (Y * Y)), h * h * AA - d * (e * e * (h * h)), X * X * BB, e * e * BB, q);
  }

  lemma CurveEquation(c: Curve, a: Affine)
    requires OnCurve(c, a)
    ensures Eq(a.y * a.y - a.x * a.x, 1 + c.d * ((a.x * a.x) * (a.y * a.y)), c.q)
  {
    var X, Y, q := a.x * a.x, a.y * a.y, c.q;
    MulAssoc(c.d, X, Y);
    var u := c.d * (X * Y);
    ModUnique(0, q, 0, 0);
    EqAdd(Y - u - X - 1, 0, 1 + u, 1 + u, q);
  }

  /** The sum of two points on the curve is on the curve, unless a denominator vanishes. */
  lemma AddOnCurve(c: Curve, a: Affine, b: Affine)
    requires HasInverses(c.q, c.inv) && OnCurve(c, a) && OnCurve(c, b)
    requires (1 + Cross(c, a, b)) % c.q != 0 && (1 - Cross(c, a, b)) % c.q != 0
    ensures OnCurve(c, AffineAdd(c, a, b))
  {
    var k, s := Cross(c, a, b), AffineAdd(c, a, b);
    var e, h := a.x * b.y + a.y * b.x, a.y * b.y + a.x * b.x;
    CurveEquation(c, a);
    CurveEquation(c, b);
    MulAssoc(c.d, a.x * a.y, b.x * b.y);
    SumEquation(a.x, a.y, b.x, b.y, c.d, k, c.q);
    Divide(e, 1 + k, c.q, c.inv);
    Divide(h, 1 - k, c.q, c.inv);
    DividedEquation(s.x, s.y, e, h, k, c.d, c.q, c.inv);
    EqMod(e * c.inv(1 + k), c.q);
    EqMod(h * c.inv(1 - k), c.q);
  }

  //
  // The denominators do not vanish
  //

  /** r is a square root of v. */
  ghost predicate Root(r: int, v: int, q: int)
    requires q > 0
  {
    Eq(r * r, v, q)
  }

  /** A square that is d times a square other than zero makes d a square. */
  lemma DivideRoots(r: int, d: int, m: int, q: int, inv: int -> int) returns (s: int)
    requires HasInverses(q, inv) && m % q != 0 && Eq(r * r, d * (m * m), q)
    ensures Root(s, d, q)
  {
    s := (r * inv(m)) % q;
    Divide(r, m, q, inv);
    EqMul(s * m, r, s * m, r, q);
    Regroup(s, s, m, m);
    ProductNonZero(m, m, q, inv);
    CancelFactor(s * s, d, m * m, q, inv);
  }

  lemma SquareOfBinomial(a: int, b: int)
    ensures (a + b) * (a + b) == a * a + b * b + 2 * (a * b)
  {
  }

  /** (i x + t y)^2 = D + 2 i t m, where i^2 = -1, t^2 = 1, D = y^2 - x^2 and m = x y. */
  lemma BinomialResidue(x: int, y: int, i: int, t: int, q: int)
    requires q > 0 && Eq(i * i, -1, q) && Eq(t * t, 1, q)
    ensures Eq((i * x + t * y) * (i * x + t * y), y * y - x * x + 2 * (i * t * (x * y)), q)
  {
    SquareOfBinomial(i * x, t * y);
    Regroup(i, i, x, x);
    Regroup(t, t, y, y);
    Regroup(i, t, x, y);
    EqMul(i * i, -1, x * x, x * x, q);
    EqMul(t * t, 1, y * y, y * y, q);
    assert -1 * (x * x) == -(x * x);
    EqAdd(i * i * (x * x), -(x * x), t * t * (y * y), y * y, q);
    EqAdd(i * i * (x * x) + t * t * (y * y), y * y - x * x, 2 * (i * t * (x * y)), 2 * (i * t * (x * y)), q);
  }

  /** If k^2 = 1 for k = d m n, then (i x1 + k y1)^2 = d m^2 (i x2 + y2)^2. */
  lemma RootsRelated(D1: int, D2: int, m: int, n: int, i: int, k: int, d: int, q: int)
    requires q > 0 && k == d * (m * n) && Eq(k * k, 1, q)
    requires Eq(D1, 1 + d * (m * m), q) && Eq(D2, 1 + d * (n * n), q)
    ensures Eq(D1 + 2 * (i * k * m), d * (m * m) * (D2 + 2 * (i * n)), q)
  {
    var u, v := d * (m * m), d * (n * n);
    assert u * v == k * k by {
      Regroup(m, m, n, n);
      ProductOfSquares(d, m * n, m * m, n * n);
    }
    assert u * (2 * (i * n)) == 2 * (i * k * m) by {
      assert u * n == k * m;
      assert u * (i * n) == i * (u * n);
      MulAssoc(i, k, m);
    }
    EqMul(u, u, D2, 1 + v, q);
    assert u * (1 + v) == u + u * v;
    EqAdd(u, u, k * k, 1, q);
    EqAdd(D1, 1 + u, 2 * (i * k * m), 2 * (i * k * m), q);
    EqAdd(u * D2, u + 1, 2 * (i * k * m), 2 * (i * k * m), q);
    MulDist(u, D2, 2 * (i * n));
  }

  /** What k^2 = 1 means for two points on the curve. */
  lemma SquareRelation(x1: int, y1: int, x2: int, y2: int, i: int, k: int, d: int, q: int)
    requires q > 0 && k == d * (x1 * y1 * (x2 * y2)) && Eq(k * k, 1, q) && Eq(i * i, -1, q)
    requires Eq(y1 * y1 - x1 * x1, 1 + d * ((x1 * x1) * (y1 * y1)), q)
    requires Eq(y2 * y2 - x2 * x2, 1 + d * ((x2 * x2) * (y2 * y2)), q)
    ensures Eq((i * x1 + k * y1) * (i * x1 + k * y1), d * ((x1 * y1) * (x1 * y1)) * ((i * x2 + y2) * (i * x2 + y2)), q)
  {
    var m, n := x1 * y1, x2 * y2;
    Regroup(x1, y1, x1, y1);
    Regroup(x2, y2, x2, y2);
    BinomialResidue(x1, y1, i, k, q);
    BinomialResidue(x2, y2, i, 1, q);
    RootsRelated(y1 * y1 - x1 * x1, y2 * y2 - x2 * x2, m, n, i, k, d, q);
    var u := d * (m * m);
    EqMul(u, u, (i * x2 + 1 * y2) * (i * x2 + 1 * y2), y2 * y2 - x2 * x2 + 2 * (i * 1 * n), q);
  }

  /** A root of d, if k = d x1 y1 x2 y2 is 1 or -1 and i x2 + y2 is not zero. */
  lemma RootOfD(x1: int, y1: int, x2: int, y2: int, i: int, k: int, d: int, q: int, inv: int -> int) returns (s: int)
    requires HasInverses(q, inv) && k == d * (x1 * y1 * (x2 * y2)) && Eq(k * k, 1, q) && Eq(i * i, -1, q)
    requires Eq(y1 * y1 - x1 * x1, 1 + d * ((x1 * x1) * (y1 * y1)), q)
    requires Eq(y2 * y2 - x2 * x2, 1 + d * ((x2 * x2) * (y2 * y2)), q)
    requires (x1 * y1) % q != 0 && (i * x2 + y2) % q != 0
    ensures Root(s, d, q)
  {
    var m, t := x1 * y1, i * x2 + y2;
    SquareRelation(x1, y1, x2, y2, i, k, d, q);
    ProductNonZero(m, t, q, inv);
    Regroup(m, m, t, t);
    MulAssoc(d, m * m, t * t);
    s := DivideRoots(i * x1 + k * y1, d, m * t, q, inv);
  }

  lemma ZeroProduct(a: int, b: int, q: int)
    requires q > 0 && Eq(a, 0, q)
    ensures Eq(a * b, 0, q) && Eq(b * a, 0, q)
  {
    EqMul(a, 0, b, b, q);
  }

  /** If d has no root, k is neither 1 nor -1. */
  lemma NotOne(x1: int, y1: int, x2: int, y2: int, i: int, k: int, d: int, q: int, inv: int -> int)
    requires HasInverses(q, inv) && k == d * (x1 * y1 * (x2 * y2)) && Eq(i * i, -1, q) && 2 % q != 0
    requires Eq(y1 * y1 - x1 * x1, 1 + d * ((x1 * x1) * (y1 * y1)), q)
    requires Eq(y2 * y2 - x2 * x2, 1 + d * ((x2 * x2) * (y2 * y2)), q)
    requires forall r :: !Root(r, d, q)
    ensures !Eq(k * k, 1, q)
  {
    if Eq(k * k, 1, q) {
      FactorsNonZero(x1 * y1, x2 * y2, d, k, q);
      NonZero(y2, q);
      if (i * x2 + y2) % q != 0 {
        var s := RootOfD(x1, y1, x2, y2, i, k, d, q, inv);
        assert false;
      } else if (i * x2 + -y2) % q != 0 {
        Negated(x1, y1, x2, y2);
        var s := RootOfD(x1, -y1, x2, -y2, i, k, d, q, inv);
        assert false;
      } else {
        BothZero(i * x2, y2, q, inv);
        ZeroProduct(y2, x2, q);
        NonZero(x2 * y2, q);
        assert false;
      }
    }
  }

  lemma Negated(x1: int, y1: int, x2: int, y2: int)
    ensures x1 * -y1 == -(x1 * y1) && x2 * -y2 == -(x2 * y2) && -y1 * -y1 == y1 * y1 && -y2 * -y2 == y2 * y2
    ensures x1 * -y1 * (x2 * -y2) == x1 * y1 * (x2 * y2)
  {
    var m, n := x1 * y1, x2 * y2;
    assert x1 * -y1 == -m && x2 * -y2 == -n;
    assert -m * -n == m * n;
  }

  /** A product whose square is one has no factor zero. */
  lemma FactorsNonZero(m: int, n: int, d: int, k: int, q: int)
    requires q > 1 && k == d * (m * n) && Eq(k * k, 1, q)
    ensures m % q != 0 && n % q != 0 && (-m) % q != 0
  {
    ModUnique(1, q, 0, 1);
    ModUnique(0, q, 0, 0);
    NonZero(m, q);
    NonZero(n, q);
    NonZero(-m, q);
    if Eq(m, 0, q) || Eq(n, 0, q) || Eq(-m, 0, q) {
      if Eq(-m, 0, q) { EqNeg(-m, 0, q); }
      if Eq(n, 0, q) { ZeroProduct(n, m, q); } else { ZeroProduct(m, n, q); }
      ZeroProduct(m * n, d, q);
      ZeroProduct(k, k, q);
      assert false;
    }
  }

  /** a + y and a - y are both zero only if y is. */
  lemma BothZero(a: int, y: int, q: int, inv: int -> int)
    requires HasInverses(q, inv) && 2 % q != 0 && (a + y) % q == 0 && (a + -y) % q == 0
    ensures Eq(y, 0, q)
  {
    ModUnique(0, q, 0, 0);
    EqSub(a + y, 0, a + -y, 0, q);
    ZeroFactor(2, y, q, inv);
  }

  /** The law is complete when minus one is a square and d is not. */
  lemma DenominatorsNonZero(c: Curve, a: Affine, b: Affine, i: int)
    requires HasInverses(c.q, c.inv) && OnCurve(c, a) && OnCurve(c, b)
    requires 2 % c.q != 0 && Root(i, -1, c.q) && forall r :: !Root(r, c.d, c.q)
    ensures (1 + Cross(c, a, b)) % c.q != 0 && (1 - Cross(c, a, b)) % c.q != 0
  {
    var k, q := Cross(c, a, b), c.q;
    CurveEquation(c, a);
    CurveEquation(c, b);
    MulAssoc(c.d, a.x * a.y, b.x * b.y);
    NotOne(a.x, a.y, b.x, b.y, i, k, c.d, q, c.inv);
    NonZero(1 + k, q);
    NonZero(1 - k, q);
    if Eq(1 + k, 0, q) || Eq(1 - k, 0, q) {
      if Eq(1 + k, 0, q) { ZeroProduct(1 + k, 1 - k, q); } else { ZeroProduct(1 - k, 1 + k, q); }
      assert (1 + k) * (1 - k) == 1 - k * k;
      EqSub(1, 1, 1 - k * k, 0, q);
      assert false;
    }
  }

  //
  // The group of the curve
  //

  function CurveGroup(c: Curve): Group<Affine>
    requires c.q > 1
  {
    Group(Affine(0, 1), (a: Affine, b: Affine) => AffineAdd(c, a, b), (a: Affine) => AffineNeg(c, a),
          (a: Affine) => OnCurve(c, a))
  }

  /** The facts about the field and the curve that are assumed: inverses exist, two is not zero,
      minus one has a root (the constant `I`) and d has none, and addition is associative. The
      other group laws are proved from them. */
  ghost predicate CurveLaw(c: Curve)
  {
    && HasInverses(c.q, c.inv) && 2 % c.q != 0
    && (exists i :: Root(i, -1, c.q)) && (forall r :: !Root(r, c.d, c.q))
    && forall a, b, e {:trigger At(a, b, e)} :: OnCurve(c, a) && OnCurve(c, b) && OnCurve(c, e) ==>
      AffineAdd(c, AffineAdd(c, a, b), e) == AffineAdd(c, a, AffineAdd(c, b, e))
  }

  /** The addition law is complete and closed. */
  lemma SumExists(c: Curve, a: Affine, b: Affine)
    requires CurveLaw(c) && OnCurve(c, a) && OnCurve(c, b)
    ensures (1 + Cross(c, a, b)) % c.q != 0 && (1 - Cross(c, a, b)) % c.q != 0 && OnCurve(c, AffineAdd(c, a, b))
  {
    var i :| Root(i, -1, c.q);
    DenominatorsNonZero(c, a, b, i);
    AddOnCurve(c, a, b);
  }

  lemma AddCommutes(c: Curve, a: Affine, b: Affine)
    requires c.q > 0
    ensures AffineAdd(c, a, b) == AffineAdd(c, b, a)
  {
    assert Cross(c, a, b) == Cross(c, b, a);
  }

  lemma ZeroOnCurve(c: Curve)
    requires c.q > 1
    ensures OnCurve(c, Affine(0, 1))
  {
    ModUnique(0, c.q, 0, 0);
  }

  lemma AddZero(c: Curve, a: Affine)
    requires CurveLaw(c) && OnCurve(c, a)
    ensures AffineAdd(c, a, Affine(0, 1)) == a
  {
    var q, O := c.q, Affine(0, 1);
    assert Cross(c, a, O) == 0;
    ModUnique(1, q, 0, 1);
    Divide(a.x, 1, q, c.inv);
    Divide(a.y, 1, q, c.inv);
    EqMod(a.x * c.inv(1), q);
    EqMod(a.y * c.inv(1), q);
    EqSmall((a.x * c.inv(1)) % q, a.x, q);
    EqSmall((a.y * c.inv(1)) % q, a.y, q);
  }

  lemma NegX(x: int, n: int, q: int)
    requires q > 0 && n == (-x) % q
    ensures 0 <= n < q && Eq(n, -x, q) && Eq(n * n, x * x, q)
  {
    EqMod(-x, q);
    EqMul(n, -x, n, -x, q);
    assert -x * -x == x * x;
  }

  lemma NegOnCurve(c: Curve, a: Affine)
    requires c.q > 1 && OnCurve(c, a)
    ensures OnCurve(c, AffineNeg(c, a))
  {
    var q, n, Y := c.q, AffineNeg(c, a), a.y * a.y;
    NegX(a.x, n.x, q);
    SameSides(n.x * n.x, a.x * a.x, c.d, Y, q);
  }

  lemma SameSides(u: int, v: int, d: int, Y: int, q: int)
    requires q > 0 && Eq(u, v, q)
    ensures Eq(Y - d * u * Y - u - 1, Y - d * v * Y - v - 1, q)
  {
    EqMul(d, d, u, v, q);
    EqMul(d * u, d * v, Y, Y, q);
    EqSub(Y, Y, d * u * Y, d * v * Y, q);
    EqSub(Y - d * u * Y, Y - d * v * Y, u, v, q);
    EqSub(Y - d * u * Y - u, Y - d * v * Y - v, 1, 1, q);
  }

  lemma AddNeg(c: Curve, a: Affine)
    requires CurveLaw(c) && OnCurve(c, a)
    ensures AffineAdd(c, a, AffineNeg(c, a)) == Affine(0, 1)
  {
    var q, n := c.q, AffineNeg(c, a);
    var k := Cross(c, a, n);
    NegX(a.x, n.x, q);
    NegOnCurve(c, a);
    SumExists(c, a, n);
    AddNegX(a.x, a.y, n.x, 1 + k, q, c.inv);
    AddNegY(a.x, a.y, n.x, c.d, k, q, c.inv);
  }

  lemma AddNegX(x: int, y: int, n: int, m: int, q: int, inv: int -> int)
    requires HasInverses(q, inv) && Eq(n, -x, q)
    ensures ((x * y + y * n) * inv(m)) % q == 0
  {
    EqMul(y, y, n, -x, q);
    EqAdd(x * y, x * y, y * n, y * -x, q);
    assert x * y + y * -x == 0;
    EqMul(x * y + y * n, 0, inv(m), inv(m), q);
    ModUnique(0, q, 0, 0);
  }

  lemma NegTerms(d: int, x: int, y: int, n: int)
    ensures n * (d * (x * (y * y))) == d * (x * y) * (n * y)
    ensures -x * (d * (x * (y * y))) == -(d * (x * x) * (y * y))
    ensures x * -x == -(x * x)
  {
    assert d * (x * y) * (n * y) == d * (x * y * (n * y));
    assert d * (x * x) * (y * y) == d * (x * x * (y * y));
  }

  lemma AddNegSides(X: int, Y: int, xn: int, D: int, k: int, q: int)
    requires q > 0 && Eq(xn, -X, q) && Eq(k, -D, q) && (Y - D - X - 1) % q == 0
    ensures Eq(Y + xn, 1 - k, q)
  {
    EqAdd(Y, Y, xn, -X, q);
    EqSub(1, 1, k, -D, q);
    NonZero(Y - D - X - 1, q);
    EqAdd(Y - D - X - 1, 0, 1 + D, 1 + D, q);
  }

  lemma AddNegY(x: int, y: int, n: int, d: int, k: int, q: int, inv: int -> int)
    requires HasInverses(q, inv) && Eq(n, -x, q)
    requires k == d * (x * y) * (n * y) && (1 - k) % q != 0
    requires (y * y - d * (x * x) * (y * y) - x * x - 1) % q == 0
    ensures ((y * y + x * n) * inv(1 - k)) % q == 1
  {
    var Y := y * y;
    NegTerms(d, x, y, n);
    EqMul(x, x, n, -x, q);
    EqMul(n, -x, d * (x * Y), d * (x * Y), q);
    AddNegSides(x * x, Y, x * n, d * (x * x) * Y, k, q);
    Divide(Y + x * n, 1 - k, q, inv);
    var y3 := ((Y + x * n) * inv(1 - k)) % q;
    EqMod((Y + x * n) * inv(1 - k), q);
    CancelFactor(y3, 1, 1 - k, q, inv);
    EqSmall(y3, 1, q);
  }

  lemma CurveIsAbelian(c: Curve)
    requires CurveLaw(c)
    ensures Abelian(CurveGroup(c))
  {
    var g := CurveGroup(c);
    ZeroOnCurve(c);
    forall a, b, e | g.has(a) && g.has(b) && g.has(e) ensures Laws(g, a, b, e) {
      assert At(a, b, e);
      SumExists(c, a, b);
      AddCommutes(c, a, b);
      AddZero(c, a);
      NegOnCurve(c, a);
      AddNeg(c, a);
    }
  }
}
