/** Scalar multiplication with points of any representation: the signed base-256 table and its
    use (`Bi256`, `MulB`), and double-and-add (`Mul`). A representation relation ties the
    points that the code computes with to elements of an abelian group. */
module ScalarMul {
  import opened Num
  import opened Groups

  datatype Ops<!P(!new)> = Ops(sum: (P, P) -> P, neg: P -> P, dbl: P -> P, id: P)

  /** Instances of soundness are named explicitly, through `Use`. */
  ghost predicate Mark<P, T>(p: P, r: P, a: T, b: T)
  {
    true
  }

  /** The operations on points compute the operations of the group. */
  ghost predicate Sound<P(!new), T(!new)>(o: Ops<P>, g: Group<T>, rep: (P, T) -> bool)
  {
    && Abelian(g) && rep(o.id, g.zero)
    && forall p, r, a, b {:trigger Mark(p, r, a, b)} :: rep(p, a) && rep(r, b) ==> Faithful(o, g, rep, p, r, a, b)
  }

  ghost predicate Faithful<P(!new), T(!new)>(o: Ops<P>, g: Group<T>, rep: (P, T) -> bool, p: P, r: P, a: T, b: T)
  {
    && g.has(a) && rep(o.sum(p, r), g.add(a, b)) && rep(o.neg(p), g.neg(a)) && rep(o.dbl(p), g.add(a, a))
  }

  /** p is the identity or came out of an addition or a doubling. */
  ghost predicate Computed<P(!new)>(o: Ops<P>, p: P)
  {
    p == o.id || (exists r, s :: p == o.sum(r, s)) || (exists r :: p == o.dbl(r))
  }

  lemma Use<P(!new), T(!new)>(o: Ops<P>, g: Group<T>, rep: (P, T) -> bool, p: P, r: P, a: T, b: T)
    requires Sound(o, g, rep) && rep(p, a) && rep(r, b)
    ensures Faithful(o, g, rep, p, r, a, b) && g.has(b)
  {
    assert Mark(p, r, a, b);
    assert Mark(r, r, b, b);
  }

  //
  // The table
  //

  /** The multiple stored at column j of row i. */
  function Coefficient(i: nat, j: nat): nat
  {
    (j + 1) * Pow(256, i)
  }

  lemma CoefficientSteps(i: nat, j: nat)
    ensures Coefficient(i, 0) == Pow(256, i)
    ensures Coefficient(i, j + 1) == Coefficient(i, j) + Pow(256, i)
    ensures Coefficient(i, 255) == Pow(256, i + 1)
  {
    var p := Pow(256, i);
    MulDistRight(j + 1, 1, p);
  }

  function WithCarry(x: nat, carry: bool): nat
  {
    if carry then x + 1 else x
  }

  class BaseTable<P(!new), T(!new)> {
    const o: Ops<P>
    const entries: array2<P>
    var carry: P
    ghost const g: Group<T>
    ghost const rep: (P, T) -> bool
    ghost const base: T

    ghost predicate Multiple(p: P, n: nat)
    {
      rep(p, Times(g, n, base))
    }

    /** Row i holds 1, ..., 128 times 256^i times the base; the carry point is 256^32 times it. */
    ghost predicate Valid()
      reads this, entries
    {
      && Sound(o, g, rep) && g.has(base)
      && entries.Length0 == 32 && entries.Length1 == 128
      && (forall i, j :: 0 <= i < 32 && 0 <= j < 128 ==> Multiple(entries[i, j], Coefficient(i, j)))
      && Multiple(carry, Pow(256, 32))
    }

    lemma AddMultiples(p: P, m: nat, r: P, n: nat)
      requires Sound(o, g, rep) && g.has(base) && Multiple(p, m) && Multiple(r, n)
      ensures Multiple(o.sum(p, r), m + n)
    {
      Use(o, g, rep, p, r, Times(g, m, base), Times(g, n, base));
      TimesAdd(g, m, n, base);
    }

    /** The table loop of the `Ed25519` constructor. */
    constructor (o: Ops<P>, b: P, ghost g: Group<T>, ghost rep: (P, T) -> bool, ghost base: T)
      requires Sound(o, g, rep) && g.has(base) && rep(b, base)
      ensures Valid() && this.o == o && this.g == g && this.rep == rep && this.base == base && fresh(entries)
    {
      this.o, this.g, this.rep, this.base := o, g, rep, base;
      entries := new P[32, 128]((i, j) => b);
      carry := b;
      new;
      TimesOne(g, base);
      assert Pow(256, 0) == 1;
      var i := 0;
      while i < 32
        invariant 0 <= i <= 32
        invariant forall k, j :: 0 <= k < i && 0 <= j < 128 ==> Multiple(entries[k, j], Coefficient(k, j))
        invariant Multiple(carry, Pow(256, i))
      {
        FillRow(i);
        i := i + 1;
      }
    }

    method FillRow(i: nat)
      requires Sound(o, g, rep) && g.has(base) && i < 32
      requires entries.Length0 == 32 && entries.Length1 == 128
      requires Multiple(carry, Pow(256, i))
      modifies this`carry, entries
      ensures forall k, j :: 0 <= k < 32 && k != i && 0 <= j < 128 ==> entries[k, j] == old(entries[k, j])
      ensures forall j :: 0 <= j < 128 ==> Multiple(entries[i, j], Coefficient(i, j))
      ensures Multiple(carry, Pow(256, i + 1))
    {
      FillColumns(i);
      carry := entries[i, 127];
      for j := 0 to 128
        modifies this`carry
        invariant Multiple(carry, Coefficient(i, 127 + j))
      {
        CoefficientSteps(i, 127 + j);
        AddMultiples(carry, Coefficient(i, 127 + j), entries[i, 0], Pow(256, i));
        carry := o.sum(carry, entries[i, 0]);
      }
      CoefficientSteps(i, 0);
    }

    method FillColumns(i: nat)
      requires Sound(o, g, rep) && g.has(base) && i < 32
      requires entries.Length0 == 32 && entries.Length1 == 128
      requires Multiple(carry, Pow(256, i))
      modifies entries
      ensures forall k, j :: 0 <= k < 32 && k != i && 0 <= j < 128 ==> entries[k, j] == old(entries[k, j])
      ensures forall j :: 0 <= j < 128 ==> Multiple(entries[i, j], Coefficient(i, j))
      ensures Multiple(entries[i, 0], Pow(256, i))
    {
      CoefficientSteps(i, 0);
      entries[i, 0] := carry;
      for j := 1 to 128
        invariant forall k, m :: 0 <= k < 32 && k != i && 0 <= m < 128 ==> entries[k, m] == old(entries[k, m])
        invariant forall m :: 0 <= m < j ==> Multiple(entries[i, m], Coefficient(i, m))
      {
        CoefficientSteps(i, j - 1);
        AddMultiples(entries[i, j - 1], Coefficient(i, j - 1), entries[i, 0], Pow(256, i));
        entries[i, j] := o.sum(entries[i, j - 1], entries[i, 0]);
      }
    }

    ghost function X(n: nat): T
    {
      Times(g, n, base)
    }

    /** The result so far, plus the pending carry, is the multiple by the bytes consumed. */
    ghost predicate Consumed(r: T, carry: bool, e: bytes, i: nat)
      requires i <= |e|
    {
      g.has(r) && g.add(r, X(if carry then Pow(256, i) else 0)) == X(Le(e[..i]))
    }

    /** Digit and carry together are the byte plus the carry that came in. */
    lemma NextByte(r: T, r': T, carry: bool, carry': bool, e: bytes, i: nat, s: nat)
      requires Abelian(g) && g.has(base) && g.has(r') && i < |e| && Consumed(r, carry, e, i)
      requires s == WithCarry(e[i], carry)
      requires g.add(r', X(if carry' then 256 * Pow(256, i) else 0)) == g.add(r, X(s * Pow(256, i)))
      ensures Consumed(r', carry', e, i + 1)
    {
      assert e[..i + 1] == e[..i] + [e[i]];
      LePush(e[..i], e[i]);
      var low, high := CarryArithmetic(e[i], carry, Pow(256, i));
      AddMultiple(r, low, high, Le(e[..i]));
    }

    lemma CarryArithmetic(x: nat, carry: bool, p: nat) returns (low: nat, high: nat)
      ensures low == (if carry then p else 0) && high == x * p && WithCarry(x, carry) * p == low + high
    {
      low, high := if carry then p else 0, x * p;
    }

    lemma AddMultiple(r: T, low: nat, high: nat, n: nat)
      requires Abelian(g) && g.has(base) && g.has(r) && g.add(r, X(low)) == X(n)
      ensures g.add(r, X(low + high)) == X(n + high)
    {
      TimesAdd(g, low, high, base);
      TimesAdd(g, n, high, base);
      TimesHas(g, low, base);
      TimesHas(g, high, base);
      Law(g, r, X(low), X(high));
    }

    lemma NegativeDigit(r: T, x: nat, p: nat)
      requires Abelian(g) && g.has(base) && g.has(r) && x <= 256
      ensures g.has(g.add(r, g.neg(X((256 - x) * p))))
      ensures g.add(g.add(r, g.neg(X((256 - x) * p))), X(256 * p)) == g.add(r, X(x * p))
    {
      var n := (256 - x) * p;
      var a, b := X(n), X(x * p);
      MulDistRight(256 - x, x, p);
      TimesAdd(g, n, x * p, base);
      TimesHas(g, n, base);
      TimesHas(g, x * p, base);
      TimesHas(g, 256 * p, base);
      Law(g, a, a, a);
      Law(g, r, g.neg(a), X(256 * p));
      Law(g, g.neg(a), a, b);
      Law(g, a, g.neg(a), a);
      Law(g, b, g.zero, b);
    }

    /** The digit added or subtracted for one byte in `MulB`: above 128 the table is entered from
        the other side and a carry is passed on. */
    method AddDigit(res: P, ghost r: T, x: nat, i: nat) returns (res': P, ghost r': T, over: bool)
      requires Valid() && i < 32 && 0 < x < 256 && rep(res, r)
      ensures rep(res', r') && g.has(r') && Computed(o, res')
      ensures over == (x > 128)
      ensures g.add(r', X(if over then 256 * Pow(256, i) else 0)) == g.add(r, X(x * Pow(256, i)))
    {
      ghost var p := Pow(256, i);
      if x <= 128 {
        var t := entries[i, x - 1];
        assert Multiple(t, Coefficient(i, x - 1));
        Use(o, g, rep, res, t, r, X(x * p));
        res', r', over := o.sum(res, t), g.add(r, X(x * p)), false;
        Law(g, r, X(x * p), r);
        Law(g, r', r, r);
      } else {
        var t := entries[i, 255 - x];
        assert Multiple(t, Coefficient(i, 255 - x));
        ghost var a := X((256 - x) * p);
        Use(o, g, rep, t, t, a, a);
        Use(o, g, rep, res, o.neg(t), r, g.neg(a));
        res', r', over := o.sum(res, o.neg(t)), g.add(r, g.neg(a)), true;
        NegativeDigit(r, x, p);
      }
    }

    /** The body of the loop in `MulB`. */
    method AddByte(res: P, ghost r: T, c: bool, e: bytes, i: nat) returns (res': P, ghost r': T, c': bool)
      requires Valid() && i < |e| == 32 && rep(res, r) && Consumed(r, c, e, i) && Computed(o, res)
      ensures rep(res', r') && Consumed(r', c', e, i + 1) && Computed(o, res')
    {
      var x: nat := e[i];
      ghost var s := WithCarry(x, c);
      res', r', c' := res, r, c;
      if c {
        if x < 255 {
          x := x + 1;
          c' := false;
        } else {
          x := 0;
        }
      }
      if x > 0 {
        assert s == x;
        res', r', c' := AddDigit(res, r, x, i);
        NextByte(r, r', c, c', e, i, x);
      } else if c {
        NextByte(r, r, c, c, e, i, 256);
      } else {
        assert 0 * Pow(256, i) == 0;
        NextByte(r, r, c, c, e, i, 0);
      }
    }

    /** `MulB` */
    method MulB(e: bytes) returns (res: P)
      requires Valid() && |e| == 32
      ensures Multiple(res, Le(e)) && Computed(o, res)
    {
      res := o.id;
      ghost var r := g.zero;
      var c := false;
      Law(g, r, r, r);
      assert Consumed(r, c, e, 0);
      for i := 0 to 32
        invariant rep(res, r) && Consumed(r, c, e, i) && Computed(o, res)
      {
        res, r, c := AddByte(res, r, c, e, i);
      }
      assert e[..32] == e;
      Law(g, r, r, r);
      if c {
        Use(o, g, rep, res, carry, r, Times(g, Pow(256, 32), base));
        res := o.sum(res, carry);
      }
    }
  }

  //
  // Double and add
  //

  /** `BN_num_bits` */
  function NumBits(e: nat): (n: nat)
    ensures e < Pow(2, n)
    ensures n > 0 ==> Pow(2, n - 1) <= e
  {
    if e == 0 then 0 else 1 + NumBits(e / 2)
  }

  /** What is left of e above bit i. */
  function Above(e: nat, i: nat): nat
  {
    if i == 0 then e else Above(e, i - 1) / 2
  }

  /** `BN_is_bit_set` */
  predicate BitSet(e: nat, i: nat)
  {
    Above(e, i) % 2 == 1
  }

  lemma {:induction false} AboveIsQuotient(e: nat, i: nat)
    ensures Above(e, i) == e / Pow(2, i)
  {
    if i > 0 {
      AboveIsQuotient(e, i - 1);
      DivDiv(e, Pow(2, i - 1), 2);
    }
  }

  lemma BitsSpent(e: nat, n: nat)
    requires e < Pow(2, n)
    ensures Above(e, n) == 0
  {
    AboveIsQuotient(e, n);
    ModUnique(e, Pow(2, n), 0, e);
  }

  /** `Mul` */
  method Mul<P(!new), T(!new)>(o: Ops<P>, p: P, e: nat, ghost g: Group<T>, ghost rep: (P, T) -> bool, ghost a: T)
    returns (res: P)
    requires Sound(o, g, rep) && rep(p, a)
    ensures rep(res, Times(g, e, a))
  {
    Use(o, g, rep, p, p, a, a);
    res := o.id;
    var i := NumBits(e);
    BitsSpent(e, i);
    while i > 0
      invariant 0 <= i && rep(res, Times(g, Above(e, i), a))
    {
      i := i - 1;
      ghost var n := Above(e, i + 1);
      ghost var r := Times(g, n, a);
      assert Above(e, i) == n + n + if BitSet(e, i) then 1 else 0;
      Use(o, g, rep, res, res, r, r);
      TimesAdd(g, n, n, a);
      res := o.dbl(res);
      if BitSet(e, i) {
        Use(o, g, rep, res, p, Times(g, n + n, a), a);
        res := o.sum(res, p);
      }
    }
  }
}
