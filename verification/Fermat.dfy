/** Arithmetic modulo a prime: inverses exist, and Fermat's little theorem. */
module Fermat {
  import opened Num
  import opened Modular

  ghost predicate Prime(p: int)
  {
    p > 1 && forall d {:trigger p % d} :: 1 < d < p ==> p % d != 0
  }

  /** The inverse of a residue, by descending through remainders of p. */
  lemma Inverse(a: int, p: int) returns (b: int)
    requires Prime(p) && 0 < a < p
    ensures Eq(a * b, 1, p)
    decreases a
  {
    if a == 1 {
      b := 1;
    } else {
      var q, r := p / a, p % a;
      var c := Inverse(r, p);
      b := -q * c;
      assert a * q == p - r;
      assert a * b == r * c + p * -c by {
        assert a * (-q * c) == -(a * q) * c;
        assert -(p - r) * c == r * c + p * -c;
      }
      EqShift(a * b, r * c, -c, p);
    }
  }

  lemma PrimeCancel(k: int, c: int, p: int)
    requires Prime(p) && 0 < k < p && Eq(k * c, 0, p)
    ensures Eq(c, 0, p)
  {
    var b := Inverse(k, p);
    EqMul(k * c, 0, b, b, p);
    EqMul(k * b, 1, c, c, p);
    assert k * c * b == k * b * c;
  }

  //
  // The binomial theorem
  //

  function Choose(n: nat, k: nat): nat
  {
    if k == 0 then 1 else if n == 0 then 0 else Choose(n - 1, k - 1) + Choose(n - 1, k)
  }

  lemma {:induction false} ChooseNone(n: nat, k: nat)
    requires n < k
    ensures Choose(n, k) == 0
  {
    if n > 0 {
      ChooseNone(n - 1, k - 1);
      ChooseNone(n - 1, k);
    }
  }

  lemma {:induction false} ChooseAll(n: nat)
    ensures Choose(n, n) == 1
  {
    if n > 0 {
      ChooseAll(n - 1);
      ChooseNone(n - 1, n);
    }
  }

  lemma {:induction false} Absorption(n: nat, k: nat)
    requires n > 0 && k > 0
    ensures k * Choose(n, k) == n * Choose(n - 1, k - 1)
    decreases n
  {
    if n == 1 {
      if k > 1 { ChooseNone(0, k - 1); ChooseNone(0, k); }
    } else {
      Absorption(n - 1, k);
      var x, y := Choose(n - 1, k - 1), Choose(n - 1, k);
      if k == 1 {
        assert x == 1 && 1 * y == (n - 1) * 1;
      } else {
        Absorption(n - 1, k - 1);
        var u, v := Choose(n - 2, k - 2), Choose(n - 2, k - 1);
        AbsorptionArithmetic(n, k, x, y, u, v);
      }
    }
  }

  lemma AbsorptionArithmetic(n: nat, k: nat, x: nat, y: nat, u: nat, v: nat)
    requires x == u + v && (k - 1) * x == (n - 1) * u && k * y == (n - 1) * v
    ensures k * (x + y) == n * x
  {
    assert k * (x + y) == (k - 1) * x + x + k * y;
    assert (n - 1) * u + (n - 1) * v == (n - 1) * x;
  }

  /** The first m terms of the expansion of (a + 1)^n. */
  function Expansion(a: nat, n: nat, m: nat): nat
  {
    if m == 0 then 0 else Expansion(a, n, m - 1) + Choose(n, m - 1) * Pow(a, m - 1)
  }

  lemma {:induction false} ExpansionStep(a: nat, n: nat, m: nat)
    requires n > 0
    ensures Expansion(a, n, m + 1) == Expansion(a, n - 1, m + 1) + a * Expansion(a, n - 1, m)
  {
    if m == 0 {
      assert Expansion(a, n, 1) == Expansion(a, n, 0) + Choose(n, 0) * Pow(a, 0);
      assert Expansion(a, n - 1, 1) == Expansion(a, n - 1, 0) + Choose(n - 1, 0) * Pow(a, 0);
    } else {
      ExpansionStep(a, n, m - 1);
      ExpansionArithmetic(a, Choose(n - 1, m - 1), Choose(n - 1, m), Pow(a, m - 1), Expansion(a, n - 1, m - 1));
    }
  }

  lemma ExpansionArithmetic(a: nat, c: nat, d: nat, q: nat, e: nat)
    ensures (c + d) * (a * q) + a * e == d * (a * q) + a * (e + c * q)
  {
    assert (c + d) * (a * q) == c * (a * q) + d * (a * q);
    assert a * (e + c * q) == a * e + a * (c * q);
    assert c * (a * q) == a * (c * q);
  }

  lemma {:induction false} Binomial(a: nat, n: nat)
    ensures Expansion(a, n, n + 1) == Pow(a + 1, n)
  {
    if n == 0 {
      assert Expansion(a, 0, 1) == Expansion(a, 0, 0) + Choose(0, 0) * Pow(a, 0);
    } else {
      Binomial(a, n - 1);
      ExpansionStep(a, n, n);
      ChooseNone(n - 1, n);
      MulDistRight(1, a, Expansion(a, n - 1, n));
    }
  }

  //
  // Fermat's little theorem
  //

  lemma ChooseDivides(p: int, k: nat)
    requires Prime(p) && 0 < k < p
    ensures Eq(Choose(p, k), 0, p)
  {
    Absorption(p, k);
    EqShift(k * Choose(p, k), 0, Choose(p - 1, k - 1), p);
    PrimeCancel(k, Choose(p, k), p);
  }

  lemma {:induction false} MiddleVanishes(a: nat, p: int, m: nat)
    requires Prime(p) && 1 <= m <= p
    ensures Eq(Expansion(a, p, m), 1, p)
  {
    if m == 1 {
      assert Expansion(a, p, 1) == Expansion(a, p, 0) + Choose(p, 0) * Pow(a, 0);
    } else {
      MiddleVanishes(a, p, m - 1);
      ChooseDivides(p, m - 1);
      EqMul(Choose(p, m - 1), 0, Pow(a, m - 1), Pow(a, m - 1), p);
      EqAdd(Expansion(a, p, m - 1), 1, Choose(p, m - 1) * Pow(a, m - 1), 0, p);
    }
  }

  lemma {:induction false} PowPrime(a: nat, p: int)
    requires Prime(p)
    ensures Eq(Pow(a, p), a, p)
  {
    if a > 0 {
      PowPrime(a - 1, p);
      Binomial(a - 1, p);
      MiddleVanishes(a - 1, p, p);
      ChooseAll(p);
      EqAdd(Expansion(a - 1, p, p), 1, Pow(a - 1, p), a - 1, p);
    } else {
      assert Pow(0, p) == 0 * Pow(0, p - 1);
    }
  }

  /** a^(p - 1) = 1 modulo p, for a not divisible by the prime p. */
  lemma LittleTheorem(a: nat, p: int)
    requires Prime(p) && a % p != 0
    ensures Eq(Pow(a, p - 1), 1, p)
  {
    PowPrime(a, p);
    var x := Pow(a, p - 1);
    assert Pow(a, p) == a * x;
    NeutralIsOne(a, x, p);
  }

  /** A factor that leaves a residue other than zero alone is one. */
  lemma NeutralIsOne(a: int, x: int, p: int)
    requires Prime(p) && a % p != 0 && Eq(a * x, a, p)
    ensures Eq(x, 1, p)
  {
    var r := a % p;
    EqMod(a, p);
    EqMul(r, a, x - 1, x - 1, p);
    EqSub(a * x, a, a, a, p);
    assert a * (x - 1) == a * x - a;
    PrimeCancel(r, x - 1, p);
    EqAdd(x - 1, 0, 1, 1, p);
  }

  /** The inverse as a power. */
  function PowInverse(p: nat): int -> int
    requires p > 1
  {
    a => Pow(a % p, p - 2)
  }

  /** Modulo a prime every residue but zero has an inverse. */
  lemma PrimeHasInverses(p: nat)
    requires Prime(p)
    ensures HasInverses(p, PowInverse(p))
  {
    var inv := PowInverse(p);
    forall a: int | a % p != 0
      ensures Eq(a * inv(a), 1, p)
    {
      var r: nat := a % p;
      EqMod(a, p);
      LittleTheorem(r, p);
      assert Pow(r, p - 1) == r * Pow(r, p - 2);
      EqMul(a, r, Pow(r, p - 2), Pow(r, p - 2), p);
    }
  }
}
