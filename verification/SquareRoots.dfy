/** Square roots modulo a prime q = 8 e - 3, of which 2^255 - 19 is one. */
module SquareRoots {
  import opened Num
  import opened Modular
  import opened ModPowers
  import opened Fermat

  /** Numbers with one square differ in sign. */
  lemma SameSquares(a: int, b: int, q: nat)
    requires Prime(q) && Eq(a * a, b * b, q)
    ensures Eq(a, b, q) || Eq(a, -b, q)
  {
    EqSub(a * a, b * b, b * b, b * b, q);
    assert (a - b) * (a + b) == a * a - b * b;
    var k := (a - b) % q;
    EqMod(a - b, q);
    EqMul(k, a - b, a + b, a + b, q);
    if k == 0 {
      ModUnique(0, q, 0, 0);
      EqAdd(a - b, 0, b, b, q);
    } else {
      PrimeCancel(k, a + b, q);
      EqSub(a + b, 0, b, b, q);
    }
  }

  lemma HalfPower(x: nat, q: nat, n: nat)
    requires Prime(q) && x % q != 0 && q - 1 == n + n
    ensures Eq(Pow(x, n), 1, q) || Eq(Pow(x, n), -1, q)
  {
    PowAdd(x, n, n);
    LittleTheorem(x, q);
    SameSquares(Pow(x, n), 1, q);
  }

  /** (x^2)^e is a root of x^2 or of -x^2. */
  lemma Candidate(x: nat, q: nat, e: nat)
    requires Prime(q) && q == 8 * e - 3
    ensures x * x >= 0
    ensures var c := Pow(x * x, e); Eq(c * c, x * x, q) || Eq(c * c, -(x * x), q)
  {
    var c, n := Pow(x * x, e), 4 * e - 2;
    PowProduct(x, x, e);
    PowAdd(x, e, e);
    PowAdd(x, 2 * e, 2 * e);
    assert c == Pow(x, 2 * e) && c * c == Pow(x, 4 * e);
    var two := 2;
    PowAdd(x, n, two);
    assert Pow(x, two) == x * Pow(x, 1) == x * (x * Pow(x, 0));
    var s := Pow(x, n);
    assert c * c == s * (x * x);
    if x % q == 0 {
      ModUnique(0, q, 0, 0);
      EqMul(x, 0, x, x, q);
      EqMul(s, s, x * x, 0, q);
    } else {
      HalfPower(x, q, n);
      if Eq(s, 1, q) {
        EqMul(s, 1, x * x, x * x, q);
      } else {
        EqMul(s, -1, x * x, x * x, q);
      }
    }
  }

  /** The root that `RecoverX` takes: a power, times a root of -1 if that is not yet a root. */
  function SquareRoot(v: int, i: int, e: nat, q: nat): (r: nat)
    requires q > 0
    ensures r < q
  {
    var c := ModPow(v % q, e, q);
    if (c * c - v) % q != 0 then (c * i) % q else c
  }

  lemma Corrected(c: int, v: int, i: int, q: nat)
    requires q > 0 && Eq(i * i, -1, q) && (Eq(c * c, v, q) || Eq(c * c, -v, q))
    ensures var r := if (c * c - v) % q != 0 then (c * i) % q else c; Eq(r * r, v, q)
  {
    ModUnique(0, q, 0, 0);
    if (c * c - v) % q == 0 {
      EqAdd(c * c - v, 0, v, v, q);
    } else {
      if Eq(c * c, v, q) { EqSub(c * c, v, v, v, q); }
      Turned(c, v, i, q);
    }
  }

  lemma Turned(c: int, v: int, i: int, q: nat)
    requires q > 0 && Eq(i * i, -1, q) && Eq(c * c, -v, q)
    ensures var r := (c * i) % q; Eq(r * r, v, q)
  {
    var r := (c * i) % q;
    EqMod(c * i, q);
    EqMul(r, c * i, r, c * i, q);
    EqMul(c * c, -v, i * i, -1, q);
    assert c * i * (c * i) == c * c * (i * i);
  }

  /** Every square has its root found. */
  lemma FindsRoot(v: int, x: nat, i: int, e: nat, q: nat)
    requires Prime(q) && q == 8 * e - 3 && Eq(i * i, -1, q) && Eq(v, x * x, q)
    ensures var r := SquareRoot(v, i, e, q); Eq(r * r, v, q)
  {
    var w, c := Pow(x * x, e), ModPow(v % q, e, q);
    EqMod(v, q);
    PowEq(v % q, x * x, e, q);
    EqMod(Pow(v % q, e), q);
    EqMul(c, w, c, w, q);
    Candidate(x, q, e);
    EqNeg(v, x * x, q);
    Corrected(c, v, i, q);
  }

  //
  // The root of -1 that the constructor computes
  //

  /** An odd power of -1. */
  lemma OddPower(m: nat, q: nat, k: nat)
    requires q > 1 && Eq(m, -1, q)
    ensures Eq(Pow(m, 2 * k + 1), -1, q)
  {
    EqMul(m, -1, m, -1, q);
    PowOne(k, q, m * m);
    PowProduct(m, m, k);
    PowAdd(m, k, k);
    EqMul(m, -1, Pow(m, 2 * k), 1, q);
  }

  lemma UnitPower(i: nat, q: nat, n: nat)
    requires Prime(q) && q - 1 == n + n && q > 2 && Eq(i * i, -1, q)
    ensures var u := 1 + i; u * u >= 0 && Eq(Pow(u * u, n), 1, q)
  {
    var u := 1 + i;
    NotMinusOne(i, q);
    PowProduct(u, u, n);
    PowAdd(u, n, n);
    LittleTheorem(u, q);
  }

  lemma RootPower(i: nat, q: nat, n: nat, e: nat)
    requires q > 1 && n == 4 * e - 2 && e > 0 && Eq(i * i, -1, q)
    ensures Eq(Pow(i, n), -1, q)
  {
    var k: nat := 2 * (e - 1) + 1;
    PowProduct(i, i, k);
    PowAdd(i, k, k);
    OddPower(i * i, q, e - 1);
    assert k + k == n;
  }

  /** With any root i of -1, (1 + i)^2 = 2 i makes two a number whose power (q - 1)/2 is -1. */
  lemma TwoIsNoSquare(i: nat, q: nat, n: nat, e: nat, two: nat)
    requires Prime(q) && q == 8 * e - 3 && n == 4 * e - 2 && two == 2 && Eq(i * i, -1, q)
    ensures Eq(Pow(two, n), -1, q)
  {
    var u := 1 + i;
    UnitPower(i, q, n);
    RootPower(i, q, n, e);
    assert u * u == 1 + two * i + i * i;
    EqAdd(1 + two * i, 1 + two * i, i * i, -1, q);
    PowEq(u * u, two * i, n, q);
    PowProduct(two, i, n);
    MinusOneOf(Pow(two, n), Pow(i, n), q);
  }

  lemma MinusOneOf(a: int, b: int, q: nat)
    requires q > 0 && Eq(b, -1, q) && Eq(a * b, 1, q)
    ensures Eq(a, -1, q)
  {
    EqMul(a, a, b, -1, q);
    EqNeg(a * b, 1, q);
    EqNeg(a * b, -a, q);
  }

  lemma NotMinusOne(i: nat, q: nat)
    requires Prime(q) && q > 2 && Eq(i * i, -1, q)
    ensures (1 + i) % q != 0
  {
    ModUnique(0, q, 0, 0);
    if (1 + i) % q == 0 {
      EqSub(1 + i, 0, 1, 1, q);
      EqMul(i, -1, i, -1, q);
      EqAdd(-1, 1, 1, 1, q);
      EqSmall(0, 2, q);
      assert false;
    }
  }

  /** The constant I of the code, 2^((q - 1)/4), is a root of -1 if there is any. */
  lemma ConstantRoot(i: int, q: nat, e: nat)
    requires Prime(q) && q == 8 * e - 3 && Eq(i * i, -1, q)
    ensures var I := ModPow(2, 2 * e - 1, q); 2 * e - 1 == (q - 1) / 4 && Eq(I * I, -1, q)
  {
    var j, m, two := i % q, 2 * e - 1, 2;
    EqMod(i, q);
    EqMul(j, i, j, i, q);
    TwoIsNoSquare(j, q, m + m, e, two);
    var I, w := ModPow(two, m, q), Pow(two, m);
    PowAdd(two, m, m);
    EqMod(w, q);
    EqMul(I, w, I, w, q);
  }
}
