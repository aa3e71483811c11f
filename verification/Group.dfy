// Abelian groups, as far as scalar multiplication needs them. The group of the
// curve is a parameter of the modules that use this one.
module Group {

  datatype Group<!G(!new)> = Group(zero: G, sum: (G, G) -> G, inverse: G -> G) {

    ghost function add(x: G, y: G): G {
      sum(x, y)
    }

    ghost function neg(x: G): G {
      inverse(x)
    }

    ghost predicate Abelian() {
      && (forall x, y, z :: add(add(x, y), z) == add(x, add(y, z)))
      && (forall x, y :: add(x, y) == add(y, x))
      && (forall x :: add(zero, x) == x)
      && (forall x :: add(x, neg(x)) == zero)
    }

    // The n-fold sum of p; [-n]p is -[n]p.
    ghost function Times(n: int, p: G): G
      decreases if n < 0 then -n else n
    {
      if n == 0 then zero
      else if n > 0 then add(Times(n - 1, p), p)
      else add(Times(n + 1, p), neg(p))
    }

    // The group laws, one instance at a time.
    lemma Assoc(x: G, y: G, z: G)
      requires Abelian()
      ensures add(add(x, y), z) == add(x, add(y, z))
    {
    }

    lemma Comm(x: G, y: G)
      requires Abelian()
      ensures add(x, y) == add(y, x)
    {
    }

    lemma Zero(x: G)
      requires Abelian()
      ensures add(zero, x) == x && add(x, zero) == x
    {
      Comm(x, zero);
    }

    lemma Inverse(x: G)
      requires Abelian()
      ensures add(x, neg(x)) == zero
    {
    }

    lemma Swap(a: G, b: G, c: G)
      requires Abelian()
      ensures add(add(a, b), c) == add(add(a, c), b)
    {
      hide add, neg, Abelian;
      Assoc(a, b, c);
      Assoc(a, c, b);
      Comm(b, c);
    }

    lemma Cancel(a: G, b: G)
      requires Abelian()
      ensures add(add(a, b), neg(b)) == a
      ensures add(add(a, neg(b)), b) == a
    {
      hide add, neg, Abelian;
      Assoc(a, b, neg(b));
      Swap(a, neg(b), b);
      Inverse(b);
      Zero(a);
    }

    lemma TimesNext(n: int, p: G)
      requires Abelian()
      ensures Times(n + 1, p) == add(Times(n, p), p)
      ensures Times(n - 1, p) == add(Times(n, p), neg(p))
    {
      hide add, neg, Abelian;
      if n < 0 {
        Cancel(Times(n + 1, p), p);
      } else if n > 0 {
        Cancel(Times(n - 1, p), p);
      }
    }

    lemma {:induction false} TimesAdd(m: int, n: int, p: G)
      requires Abelian()
      ensures Times(m + n, p) == add(Times(m, p), Times(n, p))
      decreases if n < 0 then -n else n
    {
      hide add, neg, Abelian;
      if n == 0 {
        Zero(Times(m, p));
      } else if n > 0 {
        TimesAdd(m, n - 1, p);
        TimesNext(m + n - 1, p);
        Assoc(Times(m, p), Times(n - 1, p), p);
      } else {
        TimesAdd(m, n + 1, p);
        TimesNext(m + n + 1, p);
        Assoc(Times(m, p), Times(n + 1, p), neg(p));
      }
    }

    lemma InverseIsUnique(a: G, b: G)
      requires Abelian() && add(a, b) == zero
      ensures b == neg(a)
    {
      hide add, neg, Abelian;
      Cancel(b, a);
      Comm(b, a);
      Zero(neg(a));
    }

    lemma TimesNeg(n: int, p: G)
      requires Abelian()
      ensures Times(-n, p) == neg(Times(n, p))
    {
      hide add, neg, Abelian;
      TimesAdd(n, -n, p);
      InverseIsUnique(Times(n, p), Times(-n, p));
    }

    lemma TimesZero(p: G)
      ensures Times(0, p) == zero
    {
    }

    lemma TimesOne(p: G)
      requires Abelian()
      ensures Times(1, p) == p
    {
      hide add, neg, Abelian;
      TimesNext(0, p);
      Zero(p);
    }

    // Multiples of the order do not matter.
    lemma {:induction false} TimesOrder(m: int, order: int, k: int, p: G)
      requires Abelian() && Times(order, p) == zero
      ensures Times(m + k * order, p) == Times(m, p)
      decreases if k < 0 then -k else k
    {
      hide add, neg, Abelian, Times;
      if k > 0 {
        TimesOrder(m, order, k - 1, p);
        TimesAdd(m + (k - 1) * order, order, p);
        assert m + k * order == m + (k - 1) * order + order;
        Zero(Times(m, p));
      } else if k < 0 {
        TimesOrder(m, order, k + 1, p);
        TimesAdd(m + k * order, order, p);
        assert m + (k + 1) * order == m + k * order + order;
        Zero(Times(m + k * order, p));
      }
    }

    // [m]p + [n]q, the shape of everything a ladder holds.
    ghost function Combination(m: int, p: G, n: int, q: G): G {
      add(Times(m, p), Times(n, q))
    }

    lemma AddFirst(m: int, p: G, n: int, q: G, d: int)
      requires Abelian()
      ensures add(Combination(m, p, n, q), Times(d, p)) == Combination(m + d, p, n, q)
    {
      hide add, neg, Abelian, Times;
      Swap(Times(m, p), Times(n, q), Times(d, p));
      TimesAdd(m, d, p);
    }

    lemma AddSecond(m: int, p: G, n: int, q: G, d: int)
      requires Abelian()
      ensures add(Combination(m, p, n, q), Times(d, q)) == Combination(m, p, n + d, q)
    {
      hide add, neg, Abelian, Times;
      Assoc(Times(m, p), Times(n, q), Times(d, q));
      TimesAdd(n, d, q);
    }

    lemma DoubleCombination(m: int, p: G, n: int, q: G)
      requires Abelian()
      ensures add(Combination(m, p, n, q), Combination(m, p, n, q)) == Combination(2 * m, p, 2 * n, q)
    {
      hide add, neg, Abelian, Times;
      Assoc(Combination(m, p, n, q), Times(m, p), Times(n, q));
      AddFirst(m, p, n, q, m);
      AddSecond(2 * m, p, n, q, n);
    }

    lemma TimesTwo(p: G)
      requires Abelian()
      ensures Times(2, p) == add(p, p)
    {
      hide add, neg, Abelian, Times;
      TimesAdd(1, 1, p);
      TimesOne(p);
    }

    lemma TimesEight(p: G)
      requires Abelian()
      ensures var d := add(p, p); var f := add(d, d); add(f, f) == Times(8, p)
    {
      hide add, neg, Abelian, Times;
      TimesTwo(p);
      TimesAdd(2, 2, p);
      TimesAdd(4, 4, p);
    }
  }
}
