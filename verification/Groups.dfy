/** Abelian groups and scalar multiples: what the table-driven and the double-and-add
    multiplications are both specified by. */
module Groups {
  datatype Group<!T(!new)> = Group(zero: T, add: (T, T) -> T, neg: T -> T, has: T -> bool)

  /** Instances of the laws are named explicitly, through the lemmas below. */
  ghost predicate At<T>(a: T, b: T, c: T)
  {
    true
  }

  ghost predicate Abelian<T(!new)>(g: Group<T>)
  {
    && g.has(g.zero)
    && (forall a, b, c {:trigger At(a, b, c)} :: g.has(a) && g.has(b) && g.has(c) ==> Laws(g, a, b, c))
  }

  ghost predicate Laws<T(!new)>(g: Group<T>, a: T, b: T, c: T)
  {
    && g.has(g.add(a, b))
    && g.has(g.neg(a)) && g.add(a, g.neg(a)) == g.zero
    && g.add(a, g.zero) == a
    && g.add(a, b) == g.add(b, a)
    && g.add(g.add(a, b), c) == g.add(a, g.add(b, c))
  }

  lemma Law<T(!new)>(g: Group<T>, a: T, b: T, c: T)
    requires Abelian(g) && g.has(a) && g.has(b) && g.has(c)
    ensures Laws(g, a, b, c)
  {
    assert At(a, b, c);
  }

  /** n times a, by repeated addition. */
  function Times<T(!new)>(g: Group<T>, n: nat, a: T): T
  {
    if n == 0 then g.zero else g.add(Times(g, n - 1, a), a)
  }

  lemma {:induction false} TimesHas<T(!new)>(g: Group<T>, n: nat, a: T)
    requires Abelian(g) && g.has(a)
    ensures g.has(Times(g, n, a))
  {
    if n > 0 {
      TimesHas(g, n - 1, a);
      Law(g, Times(g, n - 1, a), a, a);
    }
  }

  lemma {:induction false} TimesAdd<T(!new)>(g: Group<T>, m: nat, n: nat, a: T)
    requires Abelian(g) && g.has(a)
    ensures Times(g, m + n, a) == g.add(Times(g, m, a), Times(g, n, a))
  {
    TimesHas(g, m, a);
    if n == 0 {
      Law(g, Times(g, m, a), a, a);
    } else {
      TimesHas(g, n - 1, a);
      TimesAdd(g, m, n - 1, a);
      Law(g, Times(g, m, a), Times(g, n - 1, a), a);
    }
  }

  lemma TimesSum<T(!new)>(g: Group<T>, w: nat, m: nat, n: nat, a: T)
    requires Abelian(g) && g.has(a) && w == m + n
    ensures Times(g, w, a) == g.add(Times(g, m, a), Times(g, n, a))
  {
    TimesAdd(g, m, n, a);
  }

  /** The multiples by m and m + 1, where m is twice n and a bit. */
  lemma TimesNext<T(!new)>(g: Group<T>, n: nat, bit: bool, m: nat, a: T)
    requires Abelian(g) && g.has(a) && m == n + n + (if bit then 1 else 0)
    ensures var h := Times(g, if bit then n + 1 else n, a);
      Times(g, m, a) == g.add(h, Times(g, n, a)) && Times(g, m + 1, a) == g.add(h, Times(g, n + 1, a))
  {
    var h := if bit then n + 1 else n;
    TimesSum(g, m, h, n, a);
    TimesSum(g, m + 1, h, n + 1, a);
  }

  lemma {:induction false} TimesTimes<T(!new)>(g: Group<T>, m: nat, n: nat, a: T)
    requires Abelian(g) && g.has(a)
    ensures Times(g, m, Times(g, n, a)) == Times(g, m * n, a)
  {
    if m > 0 {
      TimesTimes(g, m - 1, n, a);
      assert m * n == (m - 1) * n + n;
      TimesAdd(g, (m - 1) * n, n, a);
    }
  }

  lemma TimesOne<T(!new)>(g: Group<T>, a: T)
    requires Abelian(g) && g.has(a)
    ensures Times(g, 1, a) == a
  {
    assert Times(g, 0, a) == g.zero;
    Law(g, g.zero, a, a);
    Law(g, a, a, a);
  }

  /** Multiples of the order vanish. */
  lemma {:induction false} TimesOrder<T(!new)>(g: Group<T>, l: nat, k: nat, a: T)
    requires Abelian(g) && g.has(a) && Times(g, l, a) == g.zero
    ensures Times(g, l * k, a) == g.zero
  {
    if k > 0 {
      TimesOrder(g, l, k - 1, a);
      assert l * k == l * (k - 1) + l;
      TimesAdd(g, l * (k - 1), l, a);
      Law(g, g.zero, g.zero, g.zero);
    }
  }

  lemma Subtract<T(!new)>(g: Group<T>, s: T, a: T, b: T)
    requires Abelian(g) && g.has(a) && g.has(b) && s == g.add(a, b)
    ensures g.add(s, g.neg(b)) == a
  {
    Law(g, b, b, b);
    Law(g, a, b, g.neg(b));
  }
}
