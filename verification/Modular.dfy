/** Congruence modulo q, and the residues modulo a q for which inverses exist. */
module Modular {
  import opened Num

  ghost predicate Eq(a: int, b: int, q: int)
    requires q > 0
  {
    a % q == b % q
  }

  lemma EqShift(a: int, b: int, k: int, q: int)
    requires q > 0 && a == b + q * k
    ensures Eq(a, b, q)
  {
    ModShift(b, q, k);
  }

  lemma EqAdd(a: int, b: int, c: int, d: int, q: int)
    requires q > 0 && Eq(a, b, q) && Eq(c, d, q)
    ensures Eq(a + c, b + d, q)
  {
    var k := ModDiff(a, b, q);
    var m := ModDiff(c, d, q);
    MulDist(q, k, m);
    EqShift(a + c, b + d, k + m, q);
  }

  lemma EqMul(a: int, b: int, c: int, d: int, q: int)
    requires q > 0 && Eq(a, b, q) && Eq(c, d, q)
    ensures Eq(a * c, b * d, q)
  {
    var k := ModDiff(a, b, q);
    var m := ModDiff(c, d, q);
    MulArithmetic(b, d, k, m, q);
    EqShift(a * c, b * d, b * m + k * d + q * (k * m), q);
  }

  lemma MulArithmetic(b: int, d: int, k: int, m: int, q: int)
    ensures (b + q * k) * (d + q * m) == b * d + q * (b * m + k * d + q * (k * m))
  {
  }

  lemma EqNeg(a: int, b: int, q: int)
    requires q > 0 && Eq(a, b, q)
    ensures Eq(-a, -b, q)
  {
    var k := ModDiff(a, b, q);
    assert q * -k == -(q * k);
    EqShift(-a, -b, -k, q);
  }

  lemma EqSub(a: int, b: int, c: int, d: int, q: int)
    requires q > 0 && Eq(a, b, q) && Eq(c, d, q)
    ensures Eq(a - c, b - d, q)
  {
    EqNeg(c, d, q);
    EqAdd(a, b, -c, -d, q);
  }

  lemma EqMod(a: int, q: int)
    requires q > 0
    ensures Eq(a % q, a, q) && 0 <= a % q < q
  {
    ModUnique(a % q, q, 0, a % q);
  }

  lemma EqSmall(a: int, b: int, q: int)
    requires q > 0 && Eq(a, b, q) && 0 <= a < q && 0 <= b < q
    ensures a == b
  {
    ModUnique(a, q, 0, a);
    ModUnique(b, q, 0, b);
  }

  /** Every residue but zero has the inverse that `inv`, as `BN_mod_inverse`, returns. */
  ghost predicate HasInverses(q: int, inv: int -> int)
  {
    && q > 1
    && forall a {:trigger inv(a)} :: a % q != 0 ==> Eq(a * inv(a), 1, q)
  }

  lemma NonZero(a: int, q: int)
    requires q > 0
    ensures a % q != 0 <==> !Eq(a, 0, q)
  {
    ModUnique(0, q, 0, 0);
  }

  lemma ZeroFactor(a: int, b: int, q: int, inv: int -> int)
    requires HasInverses(q, inv) && a % q != 0 && Eq(a * b, 0, q)
    ensures Eq(b, 0, q)
  {
    EqMul(a * b, 0, inv(a), inv(a), q);
    EqMul(a * inv(a), 1, b, b, q);
    assert a * b * inv(a) == a * inv(a) * b;
  }

  /** There are no zero divisors. */
  lemma ProductNonZero(a: int, b: int, q: int, inv: int -> int)
    requires HasInverses(q, inv) && a % q != 0 && b % q != 0
    ensures (a * b) % q != 0
  {
    NonZero(a * b, q);
    NonZero(b, q);
    if Eq(a * b, 0, q) { ZeroFactor(a, b, q, inv); }
  }

  /** Dividing by a unit: the quotient is the unique residue that multiplies back. */
  lemma Divide(n: int, m: int, q: int, inv: int -> int)
    requires HasInverses(q, inv) && m % q != 0
    ensures Eq(((n * inv(m)) % q) * m, n, q)
  {
    EqMod(n * inv(m), q);
    EqMul((n * inv(m)) % q, n * inv(m), m, m, q);
    EqMul(m * inv(m), 1, n, n, q);
    assert n * inv(m) * m == m * inv(m) * n;
  }

  lemma CancelFactor(a: int, b: int, m: int, q: int, inv: int -> int)
    requires HasInverses(q, inv) && m % q != 0
    requires Eq(a * m, b * m, q)
    ensures Eq(a, b, q)
  {
    EqMul(a * m, b * m, inv(m), inv(m), q);
    EqMul(m * inv(m), 1, a, a, q);
    EqMul(m * inv(m), 1, b, b, q);
    assert a * m * inv(m) == m * inv(m) * a;
    assert b * m * inv(m) == m * inv(m) * b;
  }
}
