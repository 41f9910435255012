/** Numbers as strings of bits, most significant first. */
module BitStrings {
  import opened Num
  import opened BigEndian

  /** The first k bits of the m-bit number v, which zeros follow. */
  function Lead(v: nat, m: nat, k: nat): nat
    decreases if k < m then m - k else k - m
  {
    if k < m then Lead(v, m, k + 1) / 2 else if k > m then 2 * Lead(v, m, k - 1) else v
  }

  lemma DivShift(x: int, p: nat, k: int)
    requires p > 0
    ensures (x + p * k) / p == x / p + k
  {
    MulDist(p, x / p, k);
    ModUnique(x + p * k, p, x / p + k, x % p);
  }

  lemma ModOfMod(x: int, a: nat, b: nat)
    requires a > 0 && b > 0
    ensures a * b > 0 && (x % (a * b)) % a == x % a
  {
    var c := a * b;
    MulSign(a, b);
    var q, r := x / c, x % c;
    assert x == c * q + r;
    MulAssoc(a, b, q);
    ModShift(r, a, b * q);
  }

  /** Leading bits of leading bits. */
  lemma {:induction false} LeadStep(v: nat, m: nat, a: nat, b: nat)
    ensures Lead(v, m, a + b) / Pow(2, b) == Lead(v, m, a)
    decreases b
  {
    if b > 0 {
      LeadStep(v, m, a + 1, b - 1);
      DivDiv(Lead(v, m, a + b), Pow(2, b - 1), 2);
    }
  }

  lemma {:induction false} LeadMultiple(v: nat, m: nat, c: nat)
    ensures Lead(v, m, m + c) == v * Pow(2, c)
  {
    if c > 0 {
      LeadMultiple(v, m, c - 1);
      MulSwap(v, 2, Pow(2, c - 1));
    }
  }

  lemma MulSwap(a: nat, b: nat, c: nat)
    ensures a * (b * c) == b * (a * c)
  {
  }

  /** Past the end of the number there are only zeros. */
  lemma LeadBeyond(v: nat, m: nat, a: nat, b: nat)
    requires m <= a
    ensures Lead(v, m, a + b) == Lead(v, m, a) * Pow(2, b)
  {
    LeadMultiple(v, m, a - m);
    LeadMultiple(v, m, a - m + b);
    PowAdd(2, a - m, b);
    MulAssoc(v, Pow(2, a - m), Pow(2, b));
  }

  /** Within the number, leading bits are a quotient. */
  lemma LeadWithin(v: nat, k: nat, b: nat)
    ensures Lead(v, k + b, k) == v / Pow(2, b)
  {
    LeadStep(v, k + b, k, b);
  }

  /** Zeros appended are dropped again. */
  lemma LeadBack(v: nat, m: nat, c: nat)
    ensures Lead(Lead(v, m, m + c), m + c, m) == v
  {
    var p := Pow(2, c);
    LeadMultiple(v, m, c);
    LeadWithin(v * p, m, c);
    ModUnique(v * p, p, v, 0);
  }

  /** The leading bits of a digit string are the value of its first digits. */
  lemma {:induction false} LeadDigits(ds: seq<nat>, w: nat, b: nat, i: nat)
    requires b == Pow(2, w) && i <= |ds| && forall j :: 0 <= j < |ds| ==> ds[j] < b
    ensures Lead(Value(ds, b), w * |ds|, w * i) == Value(ds[..i], b)
    decreases |ds| - i
  {
    if i == |ds| {
      assert ds[..i] == ds;
    } else {
      LeadDigits(ds, w, b, i + 1);
      MulDist(w, i, 1);
      LeadStep(Value(ds, b), w * |ds|, w * i, w);
      assert ds[..i + 1] == ds[..i] + [ds[i]];
      ValuePush(ds[..i], ds[i], b);
      ModUnique(Value(ds[..i + 1], b), b, Value(ds[..i], b), ds[i]);
    }
  }

  lemma LeadPrefix(s: bytes, i: nat)
    requires i <= |s|
    ensures Lead(Be(s), 8 * |s|, 8 * i) == Be(s[..i])
  {
    Pow256();
    LeadDigits(s, 8, 256, i);
  }

  lemma Pow256()
    ensures Pow(2, 8) == 256
  {
    assert Pow(2, 4) == 16;
    PowAdd(2, 4, 4);
  }

  lemma LeadByte(s: bytes, i: nat)
    requires i < |s|
    ensures Lead(Be(s), 8 * |s|, 8 * (i + 1)) == Lead(Be(s), 8 * |s|, 8 * i) * 256 + s[i]
  {
    LeadPrefix(s, i);
    LeadPrefix(s, i + 1);
    BeStep(s, i);
  }

  lemma LeadNone(s: bytes)
    ensures Lead(Be(s), 8 * |s|, 0) == 0
  {
    LeadPrefix(s, 0);
  }

  lemma {:induction false} PowerOfTwoPower(w: nat, b: nat, n: nat)
    requires b == Pow(2, w)
    ensures Pow(b, n) == Pow(2, w * n)
  {
    if n == 0 {
      assert w * 0 == 0;
    } else {
      PowerOfTwoPower(w, b, n - 1);
      PowAdd(2, w, w * (n - 1));
      MulDist(w, 1, n - 1);
    }
  }

  lemma MulStrict(a: nat, b: nat, m: nat)
    requires a < b && m > 0
    ensures a * m < b * m
  {
    MulMono(a + 1, b, m);
  }
}
