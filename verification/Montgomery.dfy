/** What the ladder of X25519 computes: multiples in the group of the Edwards curve, by the
    coordinate u = (1 + y) / (1 - y), which takes that curve to v^2 = u^3 + 486662 u^2 + u. */
module Montgomery {
  import opened Num
  import opened Modular
  import opened Groups
  import opened Edwards
  import opened ScalarMul
  import opened X25519

  /** X / Z is the coordinate u of a point with ordinate y; of the neutral point Z is zero. */
  ghost predicate Shows(X: int, Z: int, y: int, q: int)
    requires q > 0
  {
    (X % q != 0 || Z % q != 0) && Eq(X * (1 - y), Z * (1 + y), q)
  }

  /** X = l (1 + y) and Z = l (1 - y) for some l. */
  ghost predicate Scaled(X: int, Z: int, y: int, l: int, q: int)
    requires q > 0
  {
    l % q != 0 && Eq(X, l * (1 + y), q) && Eq(Z, l * (1 - y), q)
  }

  lemma Scale(X: int, Z: int, y: int, q: int, inv: int -> int) returns (l: int)
    requires HasInverses(q, inv) && 2 % q != 0 && Shows(X, Z, y, q)
    ensures Scaled(X, Z, y, l, q)
  {
    l := ((X + Z) * inv(2)) % q;
    Divide(X + Z, 2, q, inv);
    TwiceOf(X, Z, y, l, q);
    CancelFactor(l * (1 + y), X, 2, q, inv);
    CancelFactor(l * (1 - y), Z, 2, q, inv);
    if l % q == 0 {
      NonZero(l, q);
      ZeroProduct(l, 1 + y, q);
      ZeroProduct(l, 1 - y, q);
      NonZero(X, q);
      NonZero(Z, q);
      assert false;
    }
  }

  lemma TwiceOf(X: int, Z: int, y: int, l: int, q: int)
    requires q > 0 && Eq(l * 2, X + Z, q) && Eq(X * (1 - y), Z * (1 + y), q)
    ensures Eq(l * (1 + y) * 2, X * 2, q) && Eq(l * (1 - y) * 2, Z * 2, q)
  {
    EqMul(l * 2, X + Z, 1 + y, 1 + y, q);
    EqMul(l * 2, X + Z, 1 - y, 1 - y, q);
    EqAdd(X * (1 + y), X * (1 + y), X * (1 - y), Z * (1 + y), q);
    EqAdd(X * (1 - y), Z * (1 + y), Z * (1 - y), Z * (1 - y), q);
    assert (X + Z) * (1 + y) == X * (1 + y) + Z * (1 + y) by { MulDistRight(X, Z, 1 + y); }
    assert (X + Z) * (1 - y) == X * (1 - y) + Z * (1 - y) by { MulDistRight(X, Z, 1 - y); }
    Halves(X, y);
    Halves(Z, y);
    assert l * 2 * (1 + y) == l * (1 + y) * 2;
    assert l * 2 * (1 - y) == l * (1 - y) * 2;
  }

  lemma Halves(X: int, y: int)
    ensures X * (1 + y) + X * (1 - y) == X * 2
  {
    assert X * (1 + y) == X + X * y;
    assert X * (1 - y) == X - X * y;
  }

  //
  // Doubling
  //

  const A: int := 486662

  /** Squares and product of scaled coordinates. */
  lemma ScaledProducts(X: int, Z: int, y: int, l: int, q: int)
    requires q > 0 && Eq(X, l * (1 + y), q) && Eq(Z, l * (1 - y), q)
    ensures var L, Y := l * l, y * y;
      && Eq(X * X - Z * Z, L * (4 * y), q)
      && Eq(X * X + Z * Z, L * (2 * (1 + Y)), q)
      && Eq(X * Z, L * (1 - Y), q)
  {
    var L, Y := l * l, y * y;
    EqMul(X, l * (1 + y), X, l * (1 + y), q);
    EqMul(Z, l * (1 - y), Z, l * (1 - y), q);
    EqMul(X, l * (1 + y), Z, l * (1 - y), q);
    Regroup(l, l, 1 + y, 1 + y);
    Regroup(l, l, 1 - y, 1 - y);
    Regroup(l, l, 1 + y, 1 - y);
    SignSquares(y);
    var s, d := (1 + y) * (1 + y), (1 - y) * (1 - y);
    EqSub(X * X, L * s, Z * Z, L * d, q);
    EqAdd(X * X, L * s, Z * Z, L * d, q);
    MulDist(L, s, d);
    assert L * s - L * d == L * (s - d) by { MulDist(L, s - d, d); }
  }

  lemma SignSquares(y: int)
    ensures (1 + y) * (1 + y) == 1 + 2 * y + y * y
    ensures (1 - y) * (1 - y) == 1 - 2 * y + y * y
    ensures (1 + y) * (1 - y) == 1 - y * y
  {
  }

  lemma DoubledTerms(X: int, Z: int, y: int, l: int, q: int)
    requires q > 0 && Eq(X, l * (1 + y), q) && Eq(Z, l * (1 - y), q)
    ensures var M, Y := l * l * (l * l), y * y;
      && Eq((X * X - Z * Z) * (X * X - Z * Z), M * (16 * Y), q)
      && Eq(4 * (X * Z) * (X * X + A * (X * Z) + Z * Z), M * (4 * ((1 - Y) * (2 * (1 + Y) + A * (1 - Y)))), q)
  {
    var L, Y, p, N := l * l, y * y, X * Z, 2 * (1 + y * y) + A * (1 - y * y);
    ScaledProducts(X, Z, y, l, q);
    EqMul(X * X - Z * Z, L * (4 * y), X * X - Z * Z, L * (4 * y), q);
    Regroup(L, L, 4 * y, 4 * y);
    assert 4 * y * (4 * y) == 16 * Y;
    EqMul(A, A, p, L * (1 - Y), q);
    EqAdd(X * X + Z * Z, L * (2 * (1 + Y)), A * p, A * (L * (1 - Y)), q);
    assert A * (L * (1 - Y)) == L * (A * (1 - Y));
    MulDist(L, 2 * (1 + Y), A * (1 - Y));
    EqMul(4, 4, p, L * (1 - Y), q);
    EqMul(4 * p, 4 * (L * (1 - Y)), X * X + A * p + Z * Z, L * N, q);
    FourFold(L, 1 - Y, N);
  }

  lemma FourFold(L: int, a: int, N: int)
    ensures 4 * (L * a) * (L * N) == L * L * (4 * (a * N))
  {
    Regroup(L, L, a, N);
    assert 4 * (L * a) * (L * N) == 4 * ((L * a) * (L * N));
    assert 4 * (L * L * (a * N)) == L * L * (4 * (a * N));
  }

  /** (1 + d) A = 2 (1 - d) for the constants of Ed25519. */
  lemma CurveConstant(d: int, q: int, inv: int -> int)
    requires HasInverses(q, inv) && Eq(121666 * d, -121665, q)
    ensures Eq((1 + d) * A, 2 * (1 - d), q) && (1 + d) % q != 0
  {
    EqAdd(121666 * d, -121665, 121666, 121666, q);
    assert 121666 * (1 + d) == 121666 * d + 121666;
    EqMul(121666 * (1 + d), 1, A, A, q);
    EqNeg(121666 * d, -121665, q);
    EqAdd(121666, 121666, -(121666 * d), 121665, q);
    EqMul(121666 * (1 - d), 243331, 2, 2, q);
    assert 121666 * (1 + d) * A == (1 + d) * A * 121666;
    assert 121666 * (1 - d) * 2 == 2 * (1 - d) * 121666;
    assert 121666 - 121666 * d == 121666 * (1 - d);
    ModUnique(1, q, 0, 1);
    NonZero(1 + d, q);
    NonZero(121666, q);
    if Eq(1 + d, 0, q) { EqMul(121666, 121666, 1 + d, 0, q); }
    if Eq(121666, 0, q) { ZeroProduct(121666, 1 + d, q); }
    CancelFactor((1 + d) * A, 2 * (1 - d), 121666, q, inv);
  }

  /** The curve equation in terms of squares, V = x^2 and Y = y^2. */
  lemma DoubledCurve(V: int, Y: int, d: int, q: int)
    requires q > 0 && Eq(Y - V, 1 + d * (V * Y), q)
    ensures Eq((1 + d) * Y, (1 + d * Y) * (1 + V), q)
  {
    assert (1 + d * Y) * (1 + V) == 1 + V + d * Y + d * (V * Y) by {
      assert (1 + d * Y) * (1 + V) == 1 + V + d * Y + d * Y * V;
      assert d * Y * V == d * (V * Y);
    }
    assert (1 + d) * Y == Y + d * Y;
    EqAdd(Y - V, 1 + d * (V * Y), V + d * Y, V + d * Y, q);
  }

  /** The ordinate w of the double: w (1 - k) = y^2 + x^2. */
  lemma DoubledOrdinate(V: int, Y: int, k: int, w: int, q: int)
    requires q > 0 && Eq(Y - V, 1 + k, q) && Eq(w * (1 - k), Y + V, q)
    ensures Eq((1 - w) * (1 - k), 2 * (1 - Y), q) && Eq((1 + w) * (1 - k), 2 * (1 + V), q)
  {
    EqSub(2, 2, Y - V, 1 + k, q);
    EqSub(2 - (Y - V), 1 - k, Y + V, w * (1 - k), q);
    EqAdd(2 - (Y - V), 1 - k, Y + V, w * (1 - k), q);
    assert (1 - w) * (1 - k) == (1 - k) - w * (1 - k);
    assert (1 + w) * (1 - k) == (1 - k) + w * (1 - k);
  }

  lemma DoubledFactor(Y: int, d: int, q: int)
    requires q > 0 && Eq((1 + d) * A, 2 * (1 - d), q)
    ensures Eq((1 + d) * (2 * (1 + Y) + A * (1 - Y)), 4 * (1 + d * Y), q)
  {
    FactorOf(1 + d, A, 2 * (1 - d), 2 * (1 + Y), 1 - Y, q);
    FactorTerms(Y, d);
  }

  lemma FactorOf(e: int, a: int, f: int, r: int, s: int, q: int)
    requires q > 0 && Eq(e * a, f, q)
    ensures Eq(e * (r + a * s), e * r + f * s, q)
  {
    EqMul(e * a, f, s, s, q);
    EqAdd(e * r, e * r, e * a * s, f * s, q);
    MulDist(e, r, a * s);
    MulAssoc(e, a, s);
  }

  lemma FactorTerms(Y: int, d: int)
    ensures (1 + d) * (2 * (1 + Y)) + 2 * (1 - d) * (1 - Y) == 4 * (1 + d * Y)
  {
    var p := d * Y;
    assert (1 + d) * (1 + Y) == 1 + Y + d + p;
    assert (1 - d) * (1 - Y) == 1 - Y - d + p;
    assert (1 + d) * (2 * (1 + Y)) == 2 * ((1 + d) * (1 + Y));
    assert 2 * (1 - d) * (1 - Y) == 2 * ((1 - d) * (1 - Y));
  }

  lemma DoubledBalance(Y: int, V: int, N: int, d: int, k: int, w: int, q: int, inv: int -> int)
    requires HasInverses(q, inv) && (1 + d) % q != 0 && (1 - k) % q != 0
    requires Eq((1 + d) * N, 4 * (1 + d * Y), q) && Eq((1 + d) * Y, (1 + d * Y) * (1 + V), q)
    requires Eq((1 - w) * (1 - k), 2 * (1 - Y), q) && Eq((1 + w) * (1 - k), 2 * (1 + V), q)
    ensures Eq(16 * Y * (1 - w), 4 * ((1 - Y) * N) * (1 + w), q)
  {
    var m, y, v := (1 + d) * (1 - k), 1 - Y, 1 + V;
    var f := 1 + d * Y;
    EqMul((1 + d) * Y, f * v, (1 - w) * (1 - k), 2 * y, q);
    EqMul(16, 16, (1 + d) * Y * ((1 - w) * (1 - k)), f * v * (2 * y), q);
    EqMul((1 + d) * N, 4 * f, (1 + w) * (1 - k), 2 * v, q);
    EqMul(4 * y, 4 * y, (1 + d) * N * ((1 + w) * (1 - k)), 4 * f * (2 * v), q);
    assert 16 * (f * v * (2 * y)) == 4 * y * (4 * f * (2 * v)) by { BalanceTerms(f, v, y); }
    assert 16 * Y * (1 - w) * m == 16 * ((1 + d) * Y * ((1 - w) * (1 - k))) by { Spread(16, Y, 1 - w, 1 + d, 1 - k); }
    assert 4 * (y * N) * (1 + w) * m == 4 * y * ((1 + d) * N * ((1 + w) * (1 - k))) by {
      Spread(4 * y, N, 1 + w, 1 + d, 1 - k);
      assert 4 * (y * N) == 4 * y * N;
    }
    ProductNonZero(1 + d, 1 - k, q, inv);
    CancelFactor(16 * Y * (1 - w), 4 * (y * N) * (1 + w), m, q, inv);
  }

  lemma Spread(a: int, b: int, c: int, d: int, e: int)
    ensures a * b * c * (d * e) == a * (d * b * (c * e))
  {
    Regroup(b, c, d, e);
    assert d * b * (c * e) == b * d * (c * e);
    assert a * b * c * (d * e) == a * (b * c * (d * e)) by {
      MulAssoc(a, b, c);
      MulAssoc(a, b * c, d * e);
    }
  }

  lemma BalanceTerms(f: int, v: int, y: int)
    ensures 16 * (f * v * (2 * y)) == 4 * y * (4 * f * (2 * v))
  {
    assert f * v * (2 * y) == 2 * (f * v * y);
    assert 4 * f * (2 * v) == 8 * (f * v);
    assert 4 * y * (8 * (f * v)) == 32 * (f * v * y);
  }

  lemma DoubledNonZero(M: int, Y: int, N: int, d: int, q: int, inv: int -> int)
    requires HasInverses(q, inv) && 2 % q != 0 && M % q != 0 && Eq((1 + d) * N, 4 * (1 + d * Y), q)
    ensures (M * (16 * Y)) % q != 0 || (M * (4 * ((1 - Y) * N))) % q != 0
  {
    ProductNonZero(2, 2, q, inv);
    ProductNonZero(4, 4, q, inv);
    if Y % q != 0 {
      ProductNonZero(16, Y, q, inv);
      ProductNonZero(M, 16 * Y, q, inv);
    } else {
      NonZero(Y, q);
      ZeroProduct(Y, d, q);
      EqAdd(1, 1, d * Y, 0, q);
      EqMul(4, 4, 1 + d * Y, 1, q);
      NonZero(N, q);
      NonZero(4, q);
      if Eq(N, 0, q) { ZeroProduct(N, 1 + d, q); }
      EqSub(1, 1, Y, 0, q);
      EqMul(1 - Y, 1, N, N, q);
      ProductNonZero(4, (1 - Y) * N, q, inv);
      ProductNonZero(M, 4 * ((1 - Y) * N), q, inv);
    }
  }

  /** The curve of `Ed25519`, whose d is -121665/121666. */
  ghost predicate MontgomeryCurve(c: Curve)
  {
    CurveLaw(c) && Eq(121666 * c.d, -121665, c.q)
  }

  /** The first half of a step doubles the first point. */
  lemma DoubleShows(c: Curve, a: Affine, X: int, Z: int)
    requires MontgomeryCurve(c) && OnCurve(c, a) && Shows(X, Z, a.y, c.q)
    ensures Shows((X * X - Z * Z) * (X * X - Z * Z), 4 * (X * Z) * (X * X + A * (X * Z) + Z * Z),
                  AffineAdd(c, a, a).y, c.q)
  {
    var q, Y, V, k, w := c.q, a.y * a.y, a.x * a.x, Cross(c, a, a), AffineAdd(c, a, a).y;
    var N := 2 * (1 + Y) + A * (1 - Y);
    var l := Scale(X, Z, a.y, q, c.inv);
    var M := l * l * (l * l);
    DoubledTerms(X, Z, a.y, l, q);
    SumExists(c, a, a);
    Divide(a.y * a.y + a.x * a.x, 1 - k, q, c.inv);
    CurveEquation(c, a);
    assert k == c.d * (V * Y) by { MulAssoc(c.d, a.x * a.y, a.x * a.y); Regroup(a.x, a.x, a.y, a.y); }
    DoubledOrdinate(V, Y, k, w, q);
    CurveConstant(c.d, q, c.inv);
    DoubledCurve(V, Y, c.d, q);
    DoubledFactor(Y, c.d, q);
    DoubledBalance(Y, V, N, c.d, k, w, q, c.inv);
    ProductNonZero(l, l, q, c.inv);
    ProductNonZero(l * l, l * l, q, c.inv);
    DoubledNonZero(M, Y, N, c.d, q, c.inv);
    ShowsBy((X * X - Z * Z) * (X * X - Z * Z), 4 * (X * Z) * (X * X + A * (X * Z) + Z * Z), M, 16 * Y,
            4 * ((1 - Y) * N), w, q);
  }

  lemma ShowsBy(X: int, Z: int, M: int, s: int, t: int, w: int, q: int)
    requires q > 0 && Eq(X, M * s, q) && Eq(Z, M * t, q) && Eq(s * (1 - w), t * (1 + w), q)
    requires (M * s) % q != 0 || (M * t) % q != 0
    ensures Shows(X, Z, w, q)
  {
    EqMul(X, M * s, 1 - w, 1 - w, q);
    EqMul(Z, M * t, 1 + w, 1 + w, q);
    EqMul(M, M, s * (1 - w), t * (1 + w), q);
    MulAssoc(M, s, 1 - w);
    MulAssoc(M, t, 1 + w);
  }

  //
  // The sum of two points whose difference is known
  //

  /** (1 + w) (1 - k) and (1 - w) (1 - k), where w (1 - k) = r. */
  lemma OrdinateSides(w: int, k: int, r: int, q: int)
    requires q > 0 && Eq(w * (1 - k), r, q)
    ensures Eq((1 + w) * (1 - k), 1 - k + r, q) && Eq((1 - w) * (1 - k), 1 - k - r, q)
  {
    EqAdd(1 - k, 1 - k, w * (1 - k), r, q);
    EqSub(1 - k, 1 - k, w * (1 - k), r, q);
    MulDistRight(1, w, 1 - k);
    assert (1 - w) * (1 - k) == (1 - k) - w * (1 - k);
  }

  /** The curve equation solved for V = x^2. */
  lemma AbscissaSquare(V: int, Y: int, d: int, q: int)
    requires q > 0 && Eq(Y - V, 1 + d * (V * Y), q)
    ensures Eq(V * (1 + d * Y), Y - 1, q)
  {
    SolvedTerms(V, Y, d);
    Moved(Y - V, 1 + d * (V * Y), V - 1, q);
  }

  lemma SolvedTerms(V: int, Y: int, d: int)
    ensures V * (1 + d * Y) == 1 + d * (V * Y) + (V - 1)
  {
    assert V * (d * Y) == d * (V * Y);
    MulDist(V, 1, d * Y);
  }

  lemma Moved(a: int, b: int, e: int, q: int)
    requires q > 0 && Eq(a, b, q)
    ensures Eq(b + e, a + e, q)
  {
    EqAdd(a, b, e, e, q);
  }

  /** n^2 (1 + d a + d^2 m^2) = m^2 - a + 1, where a = y1^2 + y2^2, m = y1 y2 and n = x1 x2. */
  lemma ProductRelation(V: int, Y: int, V': int, Y': int, d: int, nn: int, mm: int, q: int)
    requires q > 0 && Eq(Y - V, 1 + d * (V * Y), q) && Eq(Y' - V', 1 + d * (V' * Y'), q)
    requires nn == V * V' && mm == Y * Y'
    ensures Eq(nn * (1 + d * (Y + Y') + d * d * mm), mm - (Y + Y') + 1, q)
  {
    AbscissaSquare(V, Y, d, q);
    AbscissaSquare(V', Y', d, q);
    EqMul(V * (1 + d * Y), Y - 1, V' * (1 + d * Y'), Y' - 1, q);
    Regroup(V, V', 1 + d * Y, 1 + d * Y');
    assert (Y - 1) * (Y' - 1) == mm - (Y + Y') + 1;
    assert (1 + d * Y) * (1 + d * Y') == 1 + d * (Y + Y') + d * d * mm by {
      assert (1 + d * Y) * (1 + d * Y') == 1 + d * Y + d * Y' + (d * Y) * (d * Y');
      Regroup(d, d, Y, Y');
      MulDist(d, Y, Y');
    }
  }

  lemma SumFactors(m: int, n: int, k: int)
    ensures var S, T := 1 + m * m - k * k - n * n, 2 * m + 2 * (k * n);
      && (1 - k + (m + n)) * (1 + k + (m - n)) == S + T
      && (1 - k - (m + n)) * (1 + k - (m - n)) == S - T
  {
    var r, s := 1 + m, 1 - m;
    assert (r - (k - n)) * (r + (k - n)) == r * r - (k - n) * (k - n);
    assert (s - (k + n)) * (s + (k + n)) == s * s - (k + n) * (k + n);
    assert r * r == 1 + 2 * m + m * m && s * s == 1 - 2 * m + m * m;
    assert (k - n) * (k - n) == k * k - 2 * (k * n) + n * n;
    assert (k + n) * (k + n) == k * k + 2 * (k * n) + n * n;
  }

  lemma SumDifference(S: int, T: int, a: int, m: int)
    ensures (S + T) * (a - 2 * m) - (S - T) * (a + 2 * m) == 2 * (T * a) - 4 * (m * S)
  {
    assert (S + T) * (a - 2 * m) == S * a - 2 * (m * S) + T * a - 2 * (m * T);
    assert (S - T) * (a + 2 * m) == S * a + 2 * (m * S) - T * a - 2 * (m * T);
  }

  lemma SumIdentity(m: int, n: int, k: int, a: int, d: int, q: int)
    requires q > 0 && k == d * (m * n) && Eq(n * n * (1 + d * a + d * d * (m * m)), m * m - a + 1, q)
    ensures Eq((1 - k + (m + n)) * (1 + k + (m - n)) * (a - 2 * m), (1 - k - (m + n)) * (1 + k - (m - n)) * (a + 2 * m),
               q)
  {
    var S, T, nn, mm := 1 + m * m - k * k - n * n, 2 * m + 2 * (k * n), n * n, m * m;
    SumFactors(m, n, k);
    SumDifference(S, T, a, m);
    var e := nn * (1 + d * a + d * d * mm);
    EqSub(e, mm - a + 1, mm - a + 1, mm - a + 1, q);
    EqMul(4 * m, 4 * m, e - (mm - a + 1), 0, q);
    IdentityTerms(m, n, k, a, d);
    EqAdd(2 * (T * a) - 4 * (m * S), 0, (S - T) * (a + 2 * m), (S - T) * (a + 2 * m), q);
  }

  lemma IdentityTerms(m: int, n: int, k: int, a: int, d: int)
    requires k == d * (m * n)
    ensures var S, T, nn, mm := 1 + m * m - k * k - n * n, 2 * m + 2 * (k * n), n * n, m * m;
      2 * (T * a) - 4 * (m * S) == 4 * m * (nn * (1 + d * a + d * d * mm) - (mm - a + 1))
  {
    var nn, mm := n * n, m * m;
    var t := d * nn;
    assert k * n == m * t by { Gathered(d, m, n); }
    assert k * k == d * d * mm * nn by { Regroup(d, d, m * n, m * n); Regroup(m, m, n, n); MulAssoc(d * d, mm, nn); }
    assert nn * (1 + d * a + d * d * mm) == nn + t * a + k * k by { SpreadTerms(nn, d, a, mm); }
    CollectTerms(m, t, a, k * k, nn, mm);
  }

  lemma Gathered(d: int, m: int, n: int)
    ensures d * (m * n) * n == m * (d * (n * n))
  {
    assert d * (m * n) == d * m * n;
    assert d * m * n * n == d * m * (n * n);
    assert d * m * (n * n) == m * (d * (n * n));
  }

  lemma SpreadTerms(nn: int, d: int, a: int, mm: int)
    ensures nn * (1 + d * a + d * d * mm) == nn + d * nn * a + d * d * mm * nn
  {
    MulDist(nn, 1 + d * a, d * d * mm);
    MulDist(nn, 1, d * a);
    assert nn * (d * a) == d * nn * a;
    assert nn * (d * d * mm) == d * d * mm * nn;
  }

  lemma CollectTerms(m: int, t: int, a: int, kk: int, nn: int, mm: int)
    ensures 2 * ((2 * m + 2 * (m * t)) * a) - 4 * (m * (1 + mm - kk - nn)) == 4 * m * (nn + t * a + kk - (mm - a + 1))
  {
    assert (2 * m + 2 * (m * t)) * a == 2 * (m * (a + t * a)) by {
      assert (2 * m + 2 * (m * t)) * a == 2 * (m * a) + 2 * (m * t * a);
      MulAssoc(m, t, a);
      MulDist(m, a, t * a);
    }
    MulDist(m, a + t * a, -(1 + mm - kk - nn));
    assert m * -(1 + mm - kk - nn) == -(m * (1 + mm - kk - nn));
    assert 4 * (m * (nn + t * a + kk - (mm - a + 1))) == 4 * m * (nn + t * a + kk - (mm - a + 1));
  }

  /** The ordinates w of the sum and v of the difference, in terms of squares of y1 + y2 and y1 - y2. */
  lemma SumBalance(m: int, n: int, k: int, a: int, d: int, w: int, v: int, q: int, inv: int -> int)
    requires HasInverses(q, inv) && (1 - k) % q != 0 && (1 + k) % q != 0
    requires k == d * (m * n) && Eq(n * n * (1 + d * a + d * d * (m * m)), m * m - a + 1, q)
    requires Eq(w * (1 - k), m + n, q) && Eq(v * (1 + k), m - n, q)
    ensures Eq((1 + w) * (1 + v) * (a - 2 * m), (1 - w) * (1 - v) * (a + 2 * m), q)
  {
    var M := (1 - k) * (1 + k);
    OrdinateSides(w, k, m + n, q);
    OrdinateSides(v, -k, m - n, q);
    EqMul((1 + w) * (1 - k), 1 - k + (m + n), (1 + v) * (1 + k), 1 + k + (m - n), q);
    EqMul((1 - w) * (1 - k), 1 - k - (m + n), (1 - v) * (1 + k), 1 + k - (m - n), q);
    Regroup(1 + w, 1 + v, 1 - k, 1 + k);
    Regroup(1 - w, 1 - v, 1 - k, 1 + k);
    SumIdentity(m, n, k, a, d, q);
    Balance((1 + w) * (1 + v), (1 - k + (m + n)) * (1 + k + (m - n)), (1 - w) * (1 - v),
            (1 - k - (m + n)) * (1 + k - (m - n)), M, a - 2 * m, a + 2 * m, q);
    ProductNonZero(1 - k, 1 + k, q, inv);
    CancelFactor((1 + w) * (1 + v) * (a - 2 * m), (1 - w) * (1 - v) * (a + 2 * m), M, q, inv);
  }

  lemma Balance(f: int, F: int, g: int, G: int, M: int, s: int, t: int, q: int)
    requires q > 0 && Eq(f * M, F, q) && Eq(g * M, G, q) && Eq(F * s, G * t, q)
    ensures Eq(f * s * M, g * t * M, q)
  {
    EqMul(f * M, F, s, s, q);
    EqMul(g * M, G, t, t, q);
    assert f * s * M == f * M * s;
    assert g * t * M == g * M * t;
  }

  /** The same with the coordinate u of the difference. */
  lemma SumCoordinate(f: int, g: int, v: int, u: int, s: int, t: int, q: int, inv: int -> int)
    requires HasInverses(q, inv) && (1 - v) % q != 0 && Eq(u * (1 - v), 1 + v, q)
    requires Eq(f * (1 + v) * s, g * (1 - v) * t, q)
    ensures Eq(t * g, u * s * f, q)
  {
    EqMul(u * (1 - v), 1 + v, f * s, f * s, q);
    assert u * (1 - v) * (f * s) == u * s * f * (1 - v) by { Around(u, 1 - v, f, s); }
    assert (1 + v) * (f * s) == f * (1 + v) * s;
    assert g * (1 - v) * t == t * g * (1 - v);
    CancelFactor(t * g, u * s * f, 1 - v, q, inv);
  }

  lemma Around(u: int, e: int, f: int, s: int)
    ensures u * e * (f * s) == u * s * f * e
  {
    assert u * e * (f * s) == u * (f * s) * e;
    assert u * (f * s) == u * s * f;
  }

  /** The products that a step forms of two scaled points. */
  lemma SummedTerms(X: int, Z: int, y: int, l: int, U: int, W: int, z: int, r: int, q: int)
    requires q > 0 && Eq(X, l * (1 + y), q) && Eq(Z, l * (1 - y), q)
    requires Eq(U, r * (1 + z), q) && Eq(W, r * (1 - z), q)
    ensures Eq(X * U - Z * W, l * r * (2 * (y + z)), q) && Eq(X * W - Z * U, l * r * (2 * (y - z)), q)
  {
    EqMul(X, l * (1 + y), U, r * (1 + z), q);
    EqMul(Z, l * (1 - y), W, r * (1 - z), q);
    EqMul(X, l * (1 + y), W, r * (1 - z), q);
    EqMul(Z, l * (1 - y), U, r * (1 + z), q);
    Regroup(l, r, 1 + y, 1 + z);
    Regroup(l, r, 1 - y, 1 - z);
    Regroup(l, r, 1 + y, 1 - z);
    Regroup(l, r, 1 - y, 1 + z);
    EqSub(X * U, l * r * ((1 + y) * (1 + z)), Z * W, l * r * ((1 - y) * (1 - z)), q);
    EqSub(X * W, l * r * ((1 + y) * (1 - z)), Z * U, l * r * ((1 - y) * (1 + z)), q);
    SignProducts(y, z);
    Subtracted(l * r, (1 + y) * (1 + z), (1 - y) * (1 - z), 2 * (y + z));
    Subtracted(l * r, (1 + y) * (1 - z), (1 - y) * (1 + z), 2 * (y - z));
  }

  lemma SignProducts(y: int, z: int)
    ensures (1 + y) * (1 + z) - (1 - y) * (1 - z) == 2 * (y + z)
    ensures (1 + y) * (1 - z) - (1 - y) * (1 + z) == 2 * (y - z)
  {
  }

  lemma Subtracted(L: int, a: int, b: int, e: int)
    requires a - b == e
    ensures L * a - L * b == L * e
  {
    MulDist(L, e, b);
  }

  lemma SquaredTerm(T: int, L: int, e: int, q: int)
    requires q > 0 && Eq(T, L * (2 * e), q)
    ensures Eq(4 * (T * T), L * L * 16 * (e * e), q)
  {
    EqMul(T, L * (2 * e), T, L * (2 * e), q);
    EqMul(4, 4, T * T, L * (2 * e) * (L * (2 * e)), q);
    Regroup(L, L, 2 * e, 2 * e);
    assert 2 * e * (2 * e) == 4 * (e * e);
    assert 4 * (L * L * (4 * (e * e))) == L * L * 16 * (e * e);
  }

  /** u is the coordinate of a point with ordinate y, which is not the neutral one. */
  ghost predicate Coordinate(u: int, y: int, q: int)
    requires q > 0
  {
    Eq(u * (1 - y), 1 + y, q)
  }

  lemma CoordinateZero(u: int, y: int, q: int, inv: int -> int)
    requires HasInverses(q, inv) && 2 % q != 0 && Coordinate(u, y, q)
    ensures (1 - y) % q != 0 && (u % q == 0 <==> (1 + y) % q == 0)
  {
    CoordinateFinite(u, y, q);
    NonZero(u, q);
    NonZero(1 + y, q);
    var e, r := 1 - y, 1 + y;
    assert e * u == u * e;
    if Eq(u, 0, q) { ZeroProduct(u, e, q); }
    if Eq(r, 0, q) { ZeroFactor(e, u, q, inv); }
  }

  lemma CoordinateFinite(u: int, y: int, q: int)
    requires q > 0 && 2 % q != 0 && Coordinate(u, y, q)
    ensures (1 - y) % q != 0
  {
    NonZero(1 - y, q);
    NonZero(2, q);
    if Eq(1 - y, 0, q) {
      ZeroProduct(1 - y, u, q);
      EqAdd(1 - y, 0, 1 + y, 0, q);
      assert false;
    }
  }

  /** The ordinate of the difference of two points. */
  lemma DifferenceOrdinate(c: Curve, a: Affine, b: Affine)
    requires CurveLaw(c) && OnCurve(c, a) && OnCurve(c, b)
    ensures Eq(AffineAdd(c, a, AffineNeg(c, b)).y * (1 + Cross(c, a, b)), a.y * b.y - a.x * b.x, c.q)
  {
    var q, n, k := c.q, AffineNeg(c, b), Cross(c, a, b);
    var v, k' := AffineAdd(c, a, n).y, Cross(c, a, n);
    NegX(b.x, n.x, q);
    NegOnCurve(c, b);
    SumExists(c, a, n);
    Divide(a.y * b.y + a.x * n.x, 1 - k', q, c.inv);
    EqMul(a.x, a.x, n.x, -b.x, q);
    EqAdd(a.y * b.y, a.y * b.y, a.x * n.x, a.x * -b.x, q);
    EqMul(n.x, -b.x, b.y, b.y, q);
    EqMul(c.d * (a.x * a.y), c.d * (a.x * a.y), n.x * b.y, -b.x * b.y, q);
    assert c.d * (a.x * a.y) * (-b.x * b.y) == -k by { Minus(c.d * (a.x * a.y), b.x, b.y); }
    EqSub(1, 1, k', -k, q);
    EqMul(v, v, 1 - k', 1 + k, q);
    assert a.x * -b.x == -(a.x * b.x);
  }

  lemma Minus(a: int, b: int, e: int)
    ensures a * (-b * e) == -(a * (b * e))
  {
    assert -b * e == -(b * e);
  }

  lemma OrdinatesOf(c: Curve, a: Affine, b: Affine, P: Affine)
    requires CurveLaw(c) && OnCurve(c, a) && OnCurve(c, b) && AffineAdd(c, a, AffineNeg(c, b)) == P
    ensures var m, n, k, w := a.y * b.y, a.x * b.x, Cross(c, a, b), AffineAdd(c, a, b).y;
      && k == c.d * (m * n) && (1 - k) % c.q != 0 && (1 + k) % c.q != 0
      && Eq(w * (1 - k), m + n, c.q) && Eq(P.y * (1 + k), m - n, c.q)
      && Eq(n * n * (1 + c.d * (a.y * a.y + b.y * b.y) + c.d * c.d * (m * m)), m * m - (a.y * a.y + b.y * b.y) + 1, c.q)
  {
    var m, n, k := a.y * b.y, a.x * b.x, Cross(c, a, b);
    SumExists(c, a, b);
    Divide(m + n, 1 - k, c.q, c.inv);
    DifferenceOrdinate(c, a, b);
    CurveEquation(c, a);
    CurveEquation(c, b);
    assert k == c.d * (m * n) by { MulAssoc(c.d, a.x * a.y, b.x * b.y); CrossTerms(a.x, a.y, b.x, b.y); }
    Regroup(a.x, b.x, a.x, b.x);
    Regroup(a.y, b.y, a.y, b.y);
    assert n * n == a.x * a.x * (b.x * b.x) by { Regroup(a.x, a.x, b.x, b.x); }
    assert m * m == a.y * a.y * (b.y * b.y) by { Regroup(a.y, a.y, b.y, b.y); }
    ProductRelation(a.x * a.x, a.y * a.y, b.x * b.x, b.y * b.y, c.d, n * n, m * m, c.q);
  }

  lemma CrossTerms(x1: int, y1: int, x2: int, y2: int)
    ensures x1 * y1 * (x2 * y2) == y1 * y2 * (x1 * x2)
  {
    Regroup(x1, x2, y1, y2);
  }

  /** y1 + y2 and y1 - y2 are not both zero, for points whose difference has a coordinate u. */
  lemma NotBothZero(m: int, n: int, k: int, d: int, y: int, z: int, v: int, u: int, q: int, inv: int -> int)
    requires HasInverses(q, inv) && 2 % q != 0 && u % q != 0 && Coordinate(u, v, q)
    requires m == y * z && k == d * (m * n) && Eq(v * (1 + k), m - n, q)
    requires Eq(n * n * (1 + d * (y * y + z * z) + d * d * (m * m)), m * m - (y * y + z * z) + 1, q)
    ensures (y + z) % q != 0 || (y - z) % q != 0
  {
    if (y + z) % q == 0 && (y - z) % q == 0 {
      NonZero(y + z, q);
      NonZero(y - z, q);
      EqAdd(y + z, 0, y - z, 0, q);
      ZeroFactor(2, y, q, inv);
      EqSub(y + z, 0, y, 0, q);
      VanishingOrdinates(m, n, k, d, y, z, v, q);
      CoordinateZero(u, v, q, inv);
      NonZero(1 - v, q);
      NonZero(1 + v, q);
      assert (1 - v) * (1 + v) == 1 - v * v;
      EqSub(1, 1, v * v, 1, q);
      ZeroFactor(1 - v, 1 + v, q, inv);
      assert false;
    }
  }

  lemma VanishingOrdinates(m: int, n: int, k: int, d: int, y: int, z: int, v: int, q: int)
    requires q > 0 && Eq(y, 0, q) && Eq(z, 0, q)
    requires m == y * z && k == d * (m * n) && Eq(v * (1 + k), m - n, q)
    requires Eq(n * n * (1 + d * (y * y + z * z) + d * d * (m * m)), m * m - (y * y + z * z) + 1, q)
    ensures Eq(v * v, 1, q)
  {
    var a := y * y + z * z;
    ZeroProduct(y, z, q);
    ZeroProduct(y, y, q);
    ZeroProduct(z, z, q);
    EqAdd(y * y, 0, z * z, 0, q);
    ZeroProduct(m, n, q);
    ZeroProduct(m * n, d, q);
    ZeroProduct(m, m, q);
    ZeroProduct(a, d, q);
    ZeroProduct(m * m, d * d, q);
    EqAdd(1, 1, k, 0, q);
    EqMul(v, v, 1 + k, 1, q);
    EqSub(m, 0, n, n, q);
    EqMul(v, -n, v, -n, q);
    assert -n * -n == n * n;
    EqAdd(1, 1, d * a, 0, q);
    EqAdd(1 + d * a, 1, d * d * (m * m), 0, q);
    EqMul(n * n, n * n, 1 + d * a + d * d * (m * m), 1, q);
    EqSub(m * m, 0, a, 0, q);
    EqAdd(m * m - a, 0, 1, 1, q);
  }

  /** The second half of a step adds the two points, whose difference has the coordinate u. */
  lemma SumShows(c: Curve, a: Affine, b: Affine, P: Affine, u: int, X: int, Z: int, U: int, W: int)
    requires CurveLaw(c) && OnCurve(c, a) && OnCurve(c, b) && AffineAdd(c, a, AffineNeg(c, b)) == P
    requires Coordinate(u, P.y, c.q) && u % c.q != 0 && Shows(X, Z, a.y, c.q) && Shows(U, W, b.y, c.q)
    ensures Shows(4 * ((X * U - Z * W) * (X * U - Z * W)), u * (4 * ((X * W - Z * U) * (X * W - Z * U))),
                  AffineAdd(c, a, b).y, c.q)
  {
    var q, w, y, z := c.q, AffineAdd(c, a, b).y, a.y, b.y;
    var m, n, k := y * z, a.x * b.x, Cross(c, a, b);
    OrdinatesOf(c, a, b, P);
    SumBalance(m, n, k, y * y + z * z, c.d, w, P.y, q, c.inv);
    CoordinateZero(u, P.y, q, c.inv);
    var s, t := (y - z) * (y - z), (y + z) * (y + z);
    assert s == y * y + z * z - 2 * m && t == y * y + z * z + 2 * m by { SquaresOf(y, z); }
    SumCoordinate(1 + w, 1 - w, P.y, u, s, t, q, c.inv);
    NotBothZero(m, n, k, c.d, y, z, P.y, u, q, c.inv);
    SummedShow(X, Z, y, U, W, z, w, u, q, c.inv);
  }

  lemma SquaresOf(y: int, z: int)
    ensures (y - z) * (y - z) == y * y + z * z - 2 * (y * z)
    ensures (y + z) * (y + z) == y * y + z * z + 2 * (y * z)
  {
  }

  lemma SummedShow(X: int, Z: int, y: int, U: int, W: int, z: int, w: int, u: int, q: int, inv: int -> int)
    requires HasInverses(q, inv) && 2 % q != 0 && u % q != 0 && Shows(X, Z, y, q) && Shows(U, W, z, q)
    requires (y + z) % q != 0 || (y - z) % q != 0
    requires Eq((y + z) * (y + z) * (1 - w), u * ((y - z) * (y - z)) * (1 + w), q)
    ensures Shows(4 * ((X * U - Z * W) * (X * U - Z * W)), u * (4 * ((X * W - Z * U) * (X * W - Z * U))), w, q)
  {
    var l := Scale(X, Z, y, q, inv);
    var r := Scale(U, W, z, q, inv);
    var L, s, t := l * r, (y - z) * (y - z), (y + z) * (y + z);
    var M, S, T := L * L * 16, X * W - Z * U, X * U - Z * W;
    SummedTerms(X, Z, y, l, U, W, z, r, q);
    SquaredTerm(T, L, y + z, q);
    SquaredTerm(S, L, y - z, q);
    EqMul(u, u, 4 * (S * S), M * s, q);
    assert u * (M * s) == M * (u * s);
    ProductNonZero(l, r, q, inv);
    SummedNonZero(L, y + z, y - z, u, q, inv);
    ShowsBy(4 * (T * T), u * (4 * (S * S)), M, t, u * s, w, q);
  }

  lemma SummedNonZero(L: int, e: int, f: int, u: int, q: int, inv: int -> int)
    requires HasInverses(q, inv) && 2 % q != 0 && L % q != 0 && u % q != 0 && (e % q != 0 || f % q != 0)
    ensures (L * L * 16 * (e * e)) % q != 0 || (L * L * 16 * (u * (f * f))) % q != 0
  {
    ProductNonZero(2, 2, q, inv);
    ProductNonZero(4, 4, q, inv);
    ProductNonZero(L, L, q, inv);
    ProductNonZero(L * L, 16, q, inv);
    if e % q != 0 {
      ProductNonZero(e, e, q, inv);
      ProductNonZero(L * L * 16, e * e, q, inv);
    } else {
      ProductNonZero(f, f, q, inv);
      ProductNonZero(u, f * f, q, inv);
      ProductNonZero(L * L * 16, u * (f * f), q, inv);
    }
  }

  //
  // The ladder
  //

  /** The difference of the two points, in one order or the other, is P. */
  ghost predicate Apart(c: Curve, a: Affine, b: Affine, P: Affine)
    requires c.q > 0
  {
    AffineAdd(c, a, AffineNeg(c, b)) == P || AffineAdd(c, b, AffineNeg(c, a)) == P
  }

  lemma ApartShows(c: Curve, a: Affine, b: Affine, P: Affine, u: int, X: int, Z: int, U: int, W: int)
    requires CurveLaw(c) && OnCurve(c, a) && OnCurve(c, b) && Apart(c, a, b, P)
    requires Coordinate(u, P.y, c.q) && u % c.q != 0 && Shows(X, Z, a.y, c.q) && Shows(U, W, b.y, c.q)
    ensures Shows(4 * ((X * U - Z * W) * (X * U - Z * W)), u * (4 * ((X * W - Z * U) * (X * W - Z * U))),
                  AffineAdd(c, a, b).y, c.q)
  {
    if AffineAdd(c, a, AffineNeg(c, b)) == P {
      SumShows(c, a, b, P, u, X, Z, U, W);
    } else {
      SumShows(c, b, a, P, u, U, W, X, Z);
      AddCommutes(c, a, b);
      OtherOrder(X, Z, U, W);
    }
  }

  lemma OtherOrder(X: int, Z: int, U: int, W: int)
    ensures X * U - Z * W == U * X - W * Z
    ensures (X * W - Z * U) * (X * W - Z * U) == (U * Z - W * X) * (U * Z - W * X)
  {
    var e, f := X * W - Z * U, U * Z - W * X;
    assert e == -f;
  }

  /** A step from the points a and b to 2 a and a + b. */
  lemma StepShows(c: Curve, a: Affine, b: Affine, P: Affine, u: int, s: Pair)
    requires MontgomeryCurve(c) && OnCurve(c, a) && OnCurve(c, b)
    requires Apart(c, a, b, P) && Coordinate(u, P.y, c.q) && u % c.q != 0
    requires Shows(s.x2, s.z2, a.y, c.q) && Shows(s.x3, s.z3, b.y, c.q)
    ensures var t := Advance(c.q, u, s);
      Shows(t.x2, t.z2, AffineAdd(c, a, a).y, c.q) && Shows(t.x3, t.z3, AffineAdd(c, a, b).y, c.q)
  {
    AdvanceIs(c.q, u, s);
    DoubleShows(c, a, s.x2, s.z2);
    ApartShows(c, a, b, P, u, s.x2, s.z2, s.x3, s.z3);
    var X, Z, U, W := s.x2, s.z2, s.x3, s.z3;
    Reduced((X * X - Z * Z) * (X * X - Z * Z), 4 * (X * Z) * (X * X + A * (X * Z) + Z * Z), AffineAdd(c, a, a).y, c.q);
    Reduced(4 * ((X * U - Z * W) * (X * U - Z * W)), u * (4 * ((X * W - Z * U) * (X * W - Z * U))),
            AffineAdd(c, a, b).y, c.q);
  }

  lemma Reduced(X: int, Z: int, y: int, q: int)
    requires q > 0 && Shows(X, Z, y, q)
    ensures Shows(X % q, Z % q, y, q)
  {
    EqMod(X, q);
    EqMod(Z, q);
    EqMul(X % q, X, 1 - y, 1 - y, q);
    EqMul(Z % q, Z, 1 + y, 1 + y, q);
  }

  /** P is a point of the curve with a coordinate u other than zero. */
  ghost predicate Walks(c: Curve, P: Affine, u: int)
  {
    MontgomeryCurve(c) && OnCurve(c, P) && Coordinate(u, P.y, c.q) && u % c.q != 0
  }

  ghost predicate Neighbours(c: Curve, a: Affine, b: Affine, P: Affine)
  {
    OnCurve(c, a) && OnCurve(c, b) && Apart(c, a, b, P) && Apart(c, b, a, P)
  }

  ghost predicate ShowsPoints(c: Curve, a: Affine, b: Affine, s: Pair)
    requires c.q > 0
  {
    Shows(s.x2, s.z2, a.y, c.q) && Shows(s.x3, s.z3, b.y, c.q)
  }

  /** The pair shows n P and (n + 1) P. */
  ghost predicate ShowsMultiples(c: Curve, P: Affine, n: nat, s: Pair)
    requires c.q > 1
  {
    ShowsPoints(c, Times(CurveGroup(c), n, P), Times(CurveGroup(c), n + 1, P), s)
  }

  /** Consecutive multiples differ by P. */
  lemma Consecutive(c: Curve, P: Affine, n: nat)
    requires CurveLaw(c) && OnCurve(c, P)
    ensures Neighbours(c, Times(CurveGroup(c), n, P), Times(CurveGroup(c), n + 1, P), P)
  {
    var g := CurveGroup(c);
    CurveIsAbelian(c);
    TimesHas(g, n, P);
    TimesHas(g, n + 1, P);
    var a, b := Times(g, n, P), Times(g, n + 1, P);
    Law(g, a, P, P);
    Subtract(g, b, P, a);
    assert AffineAdd(c, b, AffineNeg(c, a)) == P;
  }

  /** What one bit makes of two points that differ by P. */
  lemma TurnPoints(c: Curve, a: Affine, b: Affine, P: Affine, u: int, bit: bool, s: Pair)
    requires Walks(c, P, u) && Neighbours(c, a, b, P) && ShowsPoints(c, a, b, s)
    ensures var h := if bit then b else a;
      ShowsPoints(c, AffineAdd(c, h, a), AffineAdd(c, h, b), Turn(c.q, u, s, bit))
  {
    if bit {
      StepShows(c, b, a, P, u, Swap(s));
    } else {
      StepShows(c, a, b, P, u, s);
    }
  }

  /** One bit takes n P and (n + 1) P to those of twice n and the bit. */
  lemma TurnShows(c: Curve, P: Affine, u: int, n: nat, bit: bool, s: Pair, m: nat)
    requires Walks(c, P, u) && ShowsMultiples(c, P, n, s) && m == n + n + (if bit then 1 else 0)
    ensures ShowsMultiples(c, P, m, Turn(c.q, u, s, bit))
  {
    var g := CurveGroup(c);
    Consecutive(c, P, n);
    TurnPoints(c, Times(g, n, P), Times(g, n + 1, P), P, u, bit, s);
    CurveIsAbelian(c);
    TimesNext(g, n, bit, m, P);
  }

  /** The ladder over the bits of k above i holds the multiple by the number they make. */
  lemma {:induction false} LadderShows(c: Curve, P: Affine, u: int, k: nat, top: nat, i: nat)
    requires Walks(c, P, u) && k < Pow(2, top) && i <= top
    ensures ShowsMultiples(c, P, Above(k, i), Ladder(c.q, u, k, top, i))
    decreases top - i
  {
    if i == top {
      LadderStart(c, P, u);
      BitsSpent(k, top);
    } else {
      LadderShows(c, P, u, k, top, i + 1);
      TurnShows(c, P, u, Above(k, i + 1), BitSet(k, i), Ladder(c.q, u, k, top, i + 1), Above(k, i));
    }
  }

  lemma LadderStart(c: Curve, P: Affine, u: int)
    requires CurveLaw(c) && OnCurve(c, P) && Coordinate(u, P.y, c.q)
    ensures ShowsMultiples(c, P, 0, Pair(1, 0, u, 1))
  {
    CurveIsAbelian(c);
    TimesOne(CurveGroup(c), P);
    ModUnique(1, c.q, 0, 1);
  }

  /** What shows an ordinate y has the coordinate as quotient, and none exactly if y = 1. */
  lemma ShownQuotient(X: int, Z: int, y: int, q: int, inv: int -> int)
    requires HasInverses(q, inv) && 2 % q != 0 && Shows(X, Z, y, q)
    ensures Z % q == 0 <==> (1 - y) % q == 0
    ensures Z % q != 0 ==> Coordinate((X * inv(Z)) % q, y, q)
  {
    NonZero(Z, q);
    NonZero(X, q);
    NonZero(1 - y, q);
    var r, e := (X * inv(Z)) % q, 1 - y;
    if Z % q == 0 {
      ZeroProduct(Z, 1 + y, q);
      ZeroFactor(X, e, q, inv);
    } else {
      Divide(X, Z, q, inv);
      EqMul(r * Z, X, e, e, q);
      assert r * Z * e == r * e * Z;
      assert Z * (1 + y) == (1 + y) * Z;
      CancelFactor(r * e, 1 + y, Z, q, inv);
      CoordinateFinite(r, y, q);
    }
  }

  /** The ladder computes the coordinate of k P; its last division fails exactly if k P is neutral. */
  lemma LadderIsMultiple(c: Curve, P: Affine, u: int, k: nat, top: nat)
    requires CurveLaw(c) && Eq(121666 * c.d, -121665, c.q) && OnCurve(c, P)
    requires Coordinate(u, P.y, c.q) && u % c.q != 0 && k < Pow(2, top)
    ensures var s, m := Ladder(c.q, u, k, top, 0), Times(CurveGroup(c), k, P);
      && OnCurve(c, m) && (s.z2 % c.q == 0 <==> m == Affine(0, 1))
      && (m != Affine(0, 1) ==> Coordinate((s.x2 * c.inv(s.z2)) % c.q, m.y, c.q))
  {
    var s, m := Ladder(c.q, u, k, top, 0), Times(CurveGroup(c), k, P);
    LadderShows(c, P, u, k, top, 0);
    Consecutive(c, P, k);
    ShownQuotient(s.x2, s.z2, m.y, c.q, c.inv);
    NeutralOrdinate(c, m);
  }

  /** The neutral point is the one with ordinate 1. */
  lemma NeutralOrdinate(c: Curve, a: Affine)
    requires CurveLaw(c) && OnCurve(c, a)
    ensures a == Affine(0, 1) <==> (1 - a.y) % c.q == 0
  {
    var q := c.q;
    NonZero(1 - a.y, q);
    if Eq(1 - a.y, 0, q) {
      EqSub(1, 1, 1 - a.y, 0, q);
      EqSmall(a.y, 1, q);
      CurveEquation(c, a);
      var V := a.x * a.x;
      assert a.y * a.y == 1 && V * 1 == V;
      AbscissaSquare(V, 1, c.d, q);
      assert 1 + c.d * 1 == 1 + c.d;
      NoMinusOne(c);
      assert V * (1 + c.d) == (1 + c.d) * V;
      ZeroFactor(1 + c.d, V, q, c.inv);
      NonZero(a.x, q);
      if a.x % q != 0 { ProductNonZero(a.x, a.x, q, c.inv); }
      NonZero(V, q);
      EqSmall(a.x, 0, q);
    }
  }

  /** d is not -1, since -1 is a square. */
  lemma NoMinusOne(c: Curve)
    requires CurveLaw(c)
    ensures (1 + c.d) % c.q != 0
  {
    NonZero(1 + c.d, c.q);
    if Eq(1 + c.d, 0, c.q) {
      var i :| Root(i, -1, c.q);
      EqSub(1 + c.d, 0, 1, 1, c.q);
      assert Root(i, c.d, c.q);
      assert false;
    }
  }

  /** The coordinate zero belongs to a point of order two; with it the last division always fails. */
  lemma {:induction false} ZeroCoordinate(q: int, u: int, k: nat, top: nat, i: nat)
    requires q > 0 && Eq(u, 0, q) && i < top
    ensures var s := Ladder(q, u, k, top, i); Eq(s.z2, 0, q) && Eq(s.z3, 0, q)
    decreases top - i
  {
    var s := Ladder(q, u, k, top, i + 1);
    if i + 1 < top {
      ZeroCoordinate(q, u, k, top, i + 1);
    }
    var t := if BitSet(k, i) then Swap(s) else s;
    AdvanceIs(q, u, t);
    var X, Z, U, W := t.x2, t.z2, t.x3, t.z3;
    ZeroProduct(u, 4 * ((X * W - Z * U) * (X * W - Z * U)), q);
    assert Eq(X * Z, 0, q) by {
      if i + 1 < top { ZeroProduct(Z, X, q); } else if BitSet(k, i) { ZeroProduct(u, 1, q); }
    }
    EqMul(4, 4, X * Z, 0, q);
    ZeroProduct(4 * (X * Z), X * X + A * (X * Z) + Z * Z, q);
    EqMod(4 * (X * Z) * (X * X + A * (X * Z) + Z * Z), q);
    EqMod(u * (4 * ((X * W - Z * U) * (X * W - Z * U))), q);
  }

  //
  // Key agreement
  //

  /** What the standard's ladder returns is the coordinate of k P. */
  lemma ResultIsMultiple(c: Curve, P: Affine, u: int, k: nat, top: nat)
    requires Walks(c, P, u) && k < Pow(2, top) && Times(CurveGroup(c), k, P) != Affine(0, 1)
    ensures var r, m := RfcResult(c.q, c.inv, u, k, top), Times(CurveGroup(c), k, P);
      OnCurve(c, m) && 0 <= r < c.q && Coordinate(r, m.y, c.q)
  {
    LazySwaps(c.q, u, k, top, 0);
    LadderIsMultiple(c, P, u, k, top);
  }

  /** A point has one coordinate. */
  lemma OneCoordinate(r: int, s: int, y: int, q: int, inv: int -> int)
    requires HasInverses(q, inv) && 2 % q != 0 && 0 <= r < q && 0 <= s < q
    requires Coordinate(r, y, q) && Coordinate(s, y, q)
    ensures r == s
  {
    CoordinateFinite(r, y, q);
    CancelFactor(r, s, 1 - y, q, inv);
    EqSmall(r, s, q);
  }

  /** k P is a point other than the neutral one and the one of coordinate zero. */
  ghost predicate Proper(c: Curve, P: Affine, k: nat)
    requires c.q > 1
  {
    var m := Times(CurveGroup(c), k, P);
    m != Affine(0, 1) && (1 + m.y) % c.q != 0
  }

  /** The multiple by l of the multiple by k. */
  lemma SecondMultiple(c: Curve, P: Affine, u: int, k: nat, l: nat, n: nat, top: nat)
    requires Walks(c, P, u) && k < Pow(2, top) && l < Pow(2, top) && Proper(c, P, k)
    requires n == k * l && Times(CurveGroup(c), n, P) != Affine(0, 1)
    ensures var r := RfcResult(c.q, c.inv, RfcResult(c.q, c.inv, u, k, top), l, top);
      0 <= r < c.q && Coordinate(r, Times(CurveGroup(c), n, P).y, c.q)
  {
    var g := CurveGroup(c);
    var m, r := Times(g, k, P), RfcResult(c.q, c.inv, u, k, top);
    ResultIsMultiple(c, P, u, k, top);
    CoordinateZero(r, m.y, c.q, c.inv);
    CurveIsAbelian(c);
    TimesTimes(g, l, k, P);
    assert l * k == n;
    ResultIsMultiple(c, m, r, l, top);
  }

  /** Both sides of an exchange compute one number. */
  lemma Agreement(c: Curve, P: Affine, u: int, k: nat, l: nat, n: nat, top: nat)
    requires Walks(c, P, u) && k < Pow(2, top) && l < Pow(2, top) && Proper(c, P, k) && Proper(c, P, l)
    requires n == k * l && Times(CurveGroup(c), n, P) != Affine(0, 1)
    ensures RfcResult(c.q, c.inv, RfcResult(c.q, c.inv, u, k, top), l, top)
      == RfcResult(c.q, c.inv, RfcResult(c.q, c.inv, u, l, top), k, top)
  {
    SecondMultiple(c, P, u, k, l, n, top);
    assert n == l * k;
    SecondMultiple(c, P, u, l, k, n, top);
    OneCoordinate(RfcResult(c.q, c.inv, RfcResult(c.q, c.inv, u, k, top), l, top),
                  RfcResult(c.q, c.inv, RfcResult(c.q, c.inv, u, l, top), k, top),
                  Times(CurveGroup(c), n, P).y, c.q, c.inv);
  }

  /** What `ScalarMulBytes` computes. */
  function Exchange(q: int, inv: int -> int, p: bytes, e: bytes): (s: bytes)
    requires q > 0 && |e| == 32
    ensures |s| == 32
  {
    LeBytes(RfcResult(q, inv, Le(p), Le(Clamp(e)), BITS), 32)
  }

  /** Results are read back from their bytes. */
  lemma ReadBack(r: nat, q: int)
    requires IsField(q) && r < q
    ensures Le(LeBytes(r, 32)) == r
  {
    FieldSize(q);
    var n := 32;
    LeOfLeBytes(r, n);
    ModUnique(r, Pow(256, n), 0, r);
  }

  lemma ClampedBound(e: bytes, k: nat, top: nat)
    requires |e| == 32 && k == Le(Clamp(e)) && top == BITS
    ensures k < Pow(2, top)
  {
    ClampedScalar(e);
  }

  lemma ExchangeTwice(c: Curve, p: bytes, e: bytes, f: bytes, top: nat)
    requires IsField(c.q) && c.q > 0 && |p| == 32 && |e| == 32 && |f| == 32 && top == BITS
    ensures Exchange(c.q, c.inv, Exchange(c.q, c.inv, p, e), f)
      == LeBytes(RfcResult(c.q, c.inv, RfcResult(c.q, c.inv, Le(p), Le(Clamp(e)), top), Le(Clamp(f)), top), 32)
  {
    ReadBack(RfcResult(c.q, c.inv, Le(p), Le(Clamp(e)), top), c.q);
  }

  /** The multiples of P by k, by l and by both have coordinates, the first two other than zero. */
  ghost predicate Exchangeable(c: Curve, P: Affine, k: nat, l: nat)
    requires c.q > 1
  {
    Proper(c, P, k) && Proper(c, P, l) && Times(CurveGroup(c), k * l, P) != Affine(0, 1)
  }

  /** Both sides of an exchange get the same bytes, from the coordinate p of a point P and the
      private keys e and f. */
  lemma KeyAgreement(c: Curve, P: Affine, p: bytes, e: bytes, f: bytes)
    requires IsField(c.q) && Walks(c, P, Le(p)) && |p| == 32 && |e| == 32 && |f| == 32
    requires Exchangeable(c, P, Le(Clamp(e)), Le(Clamp(f)))
    ensures Exchange(c.q, c.inv, Exchange(c.q, c.inv, p, e), f) == Exchange(c.q, c.inv, Exchange(c.q, c.inv, p, f), e)
  {
    var top := BITS;
    ExchangeTwice(c, p, e, f, top);
    ExchangeTwice(c, p, f, e, top);
    ClampedAgreement(c, P, Le(p), e, f, top);
  }

  lemma ClampedAgreement(c: Curve, P: Affine, u: int, e: bytes, f: bytes, top: nat)
    requires Walks(c, P, u) && |e| == 32 && |f| == 32 && top == BITS
    requires Exchangeable(c, P, Le(Clamp(e)), Le(Clamp(f)))
    ensures RfcResult(c.q, c.inv, RfcResult(c.q, c.inv, u, Le(Clamp(e)), top), Le(Clamp(f)), top)
      == RfcResult(c.q, c.inv, RfcResult(c.q, c.inv, u, Le(Clamp(f)), top), Le(Clamp(e)), top)
  {
    var k, l := Le(Clamp(e)), Le(Clamp(f));
    ClampedBound(e, k, top);
    ClampedBound(f, l, top);
    ExchangedNumbers(c, P, u, k, l, top);
  }

  lemma ExchangedNumbers(c: Curve, P: Affine, u: int, k: nat, l: nat, top: nat)
    requires Walks(c, P, u) && k < Pow(2, top) && l < Pow(2, top) && Exchangeable(c, P, k, l)
    ensures RfcResult(c.q, c.inv, RfcResult(c.q, c.inv, u, k, top), l, top)
      == RfcResult(c.q, c.inv, RfcResult(c.q, c.inv, u, l, top), k, top)
  {
    Agreement(c, P, u, k, l, k * l, top);
  }

  /** The coordinate 9, from which public keys are made, is that of the base of Ed25519, whose
      ordinate is 4/5. */
  lemma BaseCoordinate(y: int, q: int)
    requires q > 0 && Eq(5 * y, 4, q)
    ensures Coordinate(9, y, q)
  {
    EqMul(2, 2, 5 * y, 4, q);
    EqAdd(2 * (5 * y), 8, 1 - 9 * y + 0, 1 - 9 * y, q);
  }
}
