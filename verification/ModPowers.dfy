/** Powers of residues. */
module ModPowers {
  import opened Num
  import opened Modular

  lemma {:induction false} PowMod(a: nat, n: nat, p: int)
    requires p > 0
    ensures Eq(Pow(a % p, n), Pow(a, n), p)
  {
    if n > 0 {
      PowMod(a, n - 1, p);
      EqMod(a, p);
      EqMul(a % p, a, Pow(a % p, n - 1), Pow(a, n - 1), p);
    }
  }

  lemma {:induction false} PowPow(a: nat, m: nat, n: nat)
    ensures Pow(Pow(a, m), n) == Pow(a, m * n)
  {
    if n == 0 {
      assert m * 0 == 0;
    } else {
      PowPow(a, m, n - 1);
      PowAdd(a, m, m * (n - 1));
      MulDist(m, 1, n - 1);
    }
  }

  lemma {:induction false} PowOne(n: nat, p: int, a: nat)
    requires p > 1 && Eq(a, 1, p)
    ensures Eq(Pow(a, n), 1, p)
  {
    if n > 0 {
      PowOne(n - 1, p, a);
      EqMul(a, 1, Pow(a, n - 1), 1, p);
    }
  }

  function ModPow(a: nat, e: nat, p: nat): (r: nat)
    requires p > 0
    ensures r < p
  {
    Pow(a, e) % p
  }

  lemma PowSwap(g: nat, m: nat, n: nat)
    ensures Pow(Pow(g, m), n) == Pow(Pow(g, n), m)
  {
    PowPow(g, m, n);
    PowPow(g, n, m);
  }

  lemma {:induction false} PowProduct(a: nat, b: nat, n: nat)
    ensures a * b >= 0 && Pow(a, n) * Pow(b, n) == Pow(a * b, n)
  {
    if n > 0 {
      PowProduct(a, b, n - 1);
      ProductsMeet(a, Pow(a, n - 1), b, Pow(b, n - 1));
    }
  }

  lemma ProductsMeet(a: nat, x: nat, b: nat, y: nat)
    ensures a * x * (b * y) == a * b * (x * y)
  {
  }

  lemma {:induction false} PowEq(a: nat, b: nat, n: nat, p: nat)
    requires p > 0 && Eq(a, b, p)
    ensures Eq(Pow(a, n), Pow(b, n), p)
  {
    if n > 0 {
      PowEq(a, b, n - 1, p);
      EqMul(a, b, Pow(a, n - 1), Pow(b, n - 1), p);
    }
  }
}
