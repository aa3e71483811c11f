// What the formulas of RFC 8032 section 5.1.4 compute, in affine coordinates:
// the addition law of the curve -x^2 + y^2 = 1 + d x^2 y^2, with the
// denominators multiplied out.
module AffineLaw {
  import opened Field25519
  import opened Edwards

  // p stands for the point (x, y) with denominator w.
  ghost predicate StandsFor(p: Ext, x: int, y: int, w: int) {
    && Congruent(p.x, x * w) && Congruent(p.y, y * w) && Congruent(p.z, w) && Congruent(p.t, (x * y) * w)
  }

  // ---- Congruences under the operations ----

  lemma CongruentMul(a: int, a1: int, b: int, b1: int)
    requires Congruent(a, a1) && Congruent(b, b1)
    ensures Congruent(Mul(a, b), a1 * b1) && Congruent(a * b, a1 * b1)
  {
    ModMul(a, b);
    ModMul(a1, b1);
  }

  lemma CongruentAdd(a: int, a1: int, b: int, b1: int)
    requires Congruent(a, a1) && Congruent(b, b1)
    ensures Congruent(Add(a, b), a1 + b1) && Congruent(Sub(a, b), a1 - b1)
  {
    ModAdd(a, b);
    ModAdd(a1, b1);
  }

  lemma Regroup(a: int, v: int, b: int, w: int)
    ensures (a * v) * (b * w) == (a * b) * (v * w)
  {
    assert (a * v) * (b * w) == ((a * v) * b) * w;
    assert (a * v) * b == (a * b) * v;
    assert ((a * b) * v) * w == (a * b) * (v * w);
  }

  lemma SumsAndDifferences(x1: int, y1: int, x2: int, y2: int)
    ensures (y1 + x1) * (y2 + x2) - (y1 - x1) * (y2 - x2) == 2 * (x1 * y2) + 2 * (y1 * x2)
    ensures (y1 + x1) * (y2 + x2) + (y1 - x1) * (y2 - x2) == 2 * (y1 * y2) + 2 * (x1 * x2)
  {
    assert (y1 + x1) * (y2 + x2) == y1 * y2 + y1 * x2 + x1 * y2 + x1 * x2;
    assert (y1 - x1) * (y2 - x2) == y1 * y2 - y1 * x2 - x1 * y2 + x1 * x2;
  }

  lemma Factored(a: int, b: int, w: int)
    ensures 2 * (a * w) + 2 * (b * w) == (2 * w) * (a + b)
    ensures 2 * (a * w) - 2 * (b * w) == (2 * w) * (a - b)
  {
  }

  // e = 2w s and h = 2w c, for any denominators.
  lemma NumeratorsAre(p: Ext, q: Ext, x1: int, y1: int, w1: int, x2: int, y2: int, w2: int)
    requires StandsFor(p, x1, y1, w1) && StandsFor(q, x2, y2, w2)
    ensures var a, b := Mul(Sub(p.y, p.x), Sub(q.y, q.x)), Mul(Add(p.y, p.x), Add(q.y, q.x));
            && Congruent(Sub(b, a), (2 * (w1 * w2)) * (x1 * y2 + y1 * x2))
            && Congruent(Add(b, a), (2 * (w1 * w2)) * (y1 * y2 + x1 * x2))
  {
    hide Mul, Add, Sub;
    var a, b := Mul(Sub(p.y, p.x), Sub(q.y, q.x)), Mul(Add(p.y, p.x), Add(q.y, q.x));
    var x, y, u, v := x1 * w1, y1 * w1, x2 * w2, y2 * w2;
    CongruentAdd(p.y, y, p.x, x);
    CongruentAdd(q.y, v, q.x, u);
    CongruentMul(Sub(p.y, p.x), y - x, Sub(q.y, q.x), v - u);
    CongruentMul(Add(p.y, p.x), y + x, Add(q.y, q.x), v + u);
    CongruentAdd(b, (y + x) * (v + u), a, (y - x) * (v - u));
    SumsAndDifferences(x, y, u, v);
    Regroup(x1, w1, y2, w2);
    Regroup(y1, w1, x2, w2);
    Regroup(y1, w1, y2, w2);
    Regroup(x1, w1, x2, w2);
    Factored(x1 * y2, y1 * x2, w1 * w2);
    Factored(y1 * y2, x1 * x2, w1 * w2);
  }

  lemma Doubled(a: int, d: int, b: int)
    ensures ((a * 2) * d) * b == 2 * (d * (a * b))
  {
    assert ((a * 2) * d) * b == 2 * ((a * d) * b);
    assert (a * d) * b == d * (a * b);
  }

  lemma Scaled(d: int, m: int, w: int)
    ensures d * (m * w) == (d * m) * w
  {
  }

  // d x1 x2 y1 y2
  function Bend(x1: int, y1: int, x2: int, y2: int): int {
    Residue(FE_D) * ((x1 * y1) * (x2 * y2))
  }

  // f = 2w (1 - k) and g = 2w (1 + k).
  lemma DenominatorsAre(p: Ext, q: Ext, x1: int, y1: int, w1: int, x2: int, y2: int, w2: int)
    requires StandsFor(p, x1, y1, w1) && StandsFor(q, x2, y2, w2)
    ensures var c, d := Mul(Mul(Mul(p.t, 2), Residue(FE_D)), q.t), Mul(Mul(p.z, 2), q.z);
            && Congruent(Sub(d, c), (2 * (w1 * w2)) * (1 - Bend(x1, y1, x2, y2)))
            && Congruent(Add(d, c), (2 * (w1 * w2)) * (1 + Bend(x1, y1, x2, y2)))
  {
    assert Congruent(p.z, w1) && Congruent(q.z, w2);
    assert Congruent(p.t, (x1 * y1) * w1) && Congruent(q.t, (x2 * y2) * w2);
    hide Mul, Add, Sub, Congruent, Bend;
    var c, d, k := Mul(Mul(Mul(p.t, 2), Residue(FE_D)), q.t), Mul(Mul(p.z, 2), q.z), Bend(x1, y1, x2, y2);
    BentProduct(p.t, q.t, x1, y1, w1, x2, y2, w2);
    CongruentItself(2);
    CongruentMul(p.z, w1, 2, 2);
    CongruentMul(Mul(p.z, 2), w1 * 2, q.z, w2);
    AroundOne(d, c, k, w1, w2);
  }

  lemma AroundOne(d: int, c: int, k: int, w1: int, w2: int)
    requires Congruent(d, (w1 * 2) * w2) && Congruent(c, 2 * (k * (w1 * w2)))
    ensures Congruent(Sub(d, c), (2 * (w1 * w2)) * (1 - k)) && Congruent(Add(d, c), (2 * (w1 * w2)) * (1 + k))
  {
    hide Add, Sub, Congruent;
    CongruentAdd(d, (w1 * 2) * w2, c, 2 * (k * (w1 * w2)));
    assert (w1 * 2) * w2 == 2 * (1 * (w1 * w2));
    Factored(1, k, w1 * w2);
  }

  lemma BentProduct(pt: int, qt: int, x1: int, y1: int, w1: int, x2: int, y2: int, w2: int)
    requires Congruent(pt, (x1 * y1) * w1) && Congruent(qt, (x2 * y2) * w2)
    ensures Congruent(Mul(Mul(Mul(pt, 2), Residue(FE_D)), qt), 2 * (Bend(x1, y1, x2, y2) * (w1 * w2)))
  {
    hide Mul, Residue, Congruent;
    var t1, t2, fd := (x1 * y1) * w1, (x2 * y2) * w2, Residue(FE_D);
    CongruentItself(2);
    CongruentItself(fd);
    CongruentMul(pt, t1, 2, 2);
    CongruentMul(Mul(pt, 2), t1 * 2, fd, fd);
    CongruentMul(Mul(Mul(pt, 2), fd), (t1 * 2) * fd, qt, t2);
    Doubled(t1, fd, t2);
    Regroup(x1 * y1, w1, x2 * y2, w2);
    Scaled(fd, (x1 * y1) * (x2 * y2), w1 * w2);
  }

  lemma CongruentItself(a: int)
    ensures Congruent(a, a)
  {
  }

  lemma Crosswise(u: int, a: int, b: int, c: int)
    ensures ((u * a) * (u * b)) * c == ((u * b) * (u * c)) * a
  {
    Regroup(u, a, u, b);
    Regroup(u, b, u, c);
    assert ((u * u) * (a * b)) * c == (u * u) * ((a * b) * c);
    assert ((u * u) * (b * c)) * a == (u * u) * ((b * c) * a);
    assert (a * b) * c == (b * c) * a;
  }

  // Four numbers times one another as the last four products of both formulas.
  lemma Products(e: int, f: int, g: int, h: int, u: int, s: int, m: int, n: int, c: int)
    requires Congruent(e, u * s) && Congruent(f, u * m) && Congruent(g, u * n) && Congruent(h, u * c)
    ensures Congruent(Mul(e, f) * n, Mul(f, g) * s)
    ensures Congruent(Mul(g, h) * m, Mul(f, g) * c)
    ensures Congruent(Mul(e, f) * Mul(g, h), Mul(e, h) * Mul(f, g))
  {
    hide Mul;
    CongruentMul(e, u * s, f, u * m);
    CongruentMul(f, u * m, g, u * n);
    CongruentMul(g, u * n, h, u * c);
    CongruentMul(e, u * s, h, u * c);
    var ef, fg, gh, eh := (u * s) * (u * m), (u * m) * (u * n), (u * n) * (u * c), (u * s) * (u * c);
    CongruentMul(Mul(e, f), ef, n, n);
    CongruentMul(Mul(f, g), fg, s, s);
    Crosswise(u, s, m, n);
    CongruentMul(Mul(g, h), gh, m, m);
    CongruentMul(Mul(f, g), fg, c, c);
    Crosswise(u, c, n, m);
    assert (u * m) * (u * n) == (u * n) * (u * m) && (u * n) * (u * c) == (u * c) * (u * n);
    CongruentMul(Mul(e, f), ef, Mul(g, h), gh);
    CongruentMul(Mul(e, h), eh, Mul(f, g), fg);
    Regroup(u * s, u * m, u * c, u * n);
  }

  // x3 = (x1 y2 + x2 y1) / (1 + d x1 x2 y1 y2) and
  // y3 = (y1 y2 + x1 x2) / (1 - d x1 x2 y1 y2).
  lemma AddIsAffine(p: Ext, q: Ext, x1: int, y1: int, w1: int, x2: int, y2: int, w2: int)
    requires StandsFor(p, x1, y1, w1) && StandsFor(q, x2, y2, w2)
    ensures var r, k := RfcAdd(p, q), Bend(x1, y1, x2, y2);
            && Congruent(r.x * (1 + k), r.z * (x1 * y2 + y1 * x2))
            && Congruent(r.y * (1 - k), r.z * (y1 * y2 + x1 * x2))
            && Congruent(r.x * r.y, r.t * r.z)
  {
    hide Mul, Add, Sub, Residue, Bend;
    var k := Bend(x1, y1, x2, y2);
    var a, b := Mul(Sub(p.y, p.x), Sub(q.y, q.x)), Mul(Add(p.y, p.x), Add(q.y, q.x));
    var c, d := Mul(Mul(Mul(p.t, 2), Residue(FE_D)), q.t), Mul(Mul(p.z, 2), q.z);
    NumeratorsAre(p, q, x1, y1, w1, x2, y2, w2);
    DenominatorsAre(p, q, x1, y1, w1, x2, y2, w2);
    Products(Sub(b, a), Sub(d, c), Add(d, c), Add(b, a), 2 * (w1 * w2), x1 * y2 + y1 * x2, 1 - k, 1 + k,
             y1 * y2 + x1 * x2);
  }

  // ---- Doubling ----

  lemma SquareOfSum(x: int, y: int)
    ensures x * x + y * y - (x + y) * (x + y) == -2 * (x * y)
  {
  }

  lemma DoublingNumbers(p: Ext, x: int, y: int, w: int)
    requires StandsFor(p, x, y, w)
    ensures var a, b, m := Mul(p.x, p.x), Mul(p.y, p.y), Mul(Add(p.x, p.y), Add(p.x, p.y));
            && Congruent(Sub(Add(a, b), m), (w * w) * (-2 * (x * y)))
            && Congruent(Sub(a, b), (w * w) * (x * x - y * y)) && Congruent(Add(a, b), (w * w) * (x * x + y * y))
            && Congruent(Add(Mul(2, Mul(p.z, p.z)), Sub(a, b)), (w * w) * (2 + (x * x - y * y)))
  {
    hide Mul, Add, Sub;
    var a, b, m := Mul(p.x, p.x), Mul(p.y, p.y), Mul(Add(p.x, p.y), Add(p.x, p.y));
    var u, v := x * w, y * w;
    CongruentMul(p.x, u, p.x, u);
    CongruentMul(p.y, v, p.y, v);
    CongruentAdd(p.x, u, p.y, v);
    CongruentMul(Add(p.x, p.y), u + v, Add(p.x, p.y), u + v);
    CongruentAdd(a, u * u, b, v * v);
    CongruentAdd(Add(a, b), u * u + v * v, m, (u + v) * (u + v));
    SquareOfSum(u, v);
    Regroup(x, w, x, w);
    Regroup(y, w, y, w);
    Regroup(x, w, y, w);
    CongruentMul(p.z, w, p.z, w);
    CongruentMul(2, 2, Mul(p.z, p.z), w * w);
    CongruentAdd(Mul(2, Mul(p.z, p.z)), 2 * (w * w), Sub(a, b), u * u - v * v);
    Gathered(w * w, x * x, y * y, x * y);
  }

  lemma Gathered(q: int, a: int, b: int, c: int)
    ensures -2 * (c * q) == q * (-2 * c) && a * q - b * q == q * (a - b) && a * q + b * q == q * (a + b)
    ensures 2 * q + q * (a - b) == q * (2 + (a - b))
  {
  }

  // For a point of the curve the doubling is its sum with itself.
  lemma DoubleIsAffine(p: Ext, x: int, y: int, w: int)
    requires StandsFor(p, x, y, w) && Congruent(y * y - x * x, 1 + Bend(x, y, x, y))
    ensures var r, k := RfcDouble(p), Bend(x, y, x, y);
            && Congruent(r.x * (1 + k), r.z * (2 * (x * y)))
            && Congruent(r.y * (1 - k), r.z * (x * x + y * y))
            && Congruent(r.x * r.y, r.t * r.z)
  {
    hide Mul, Add, Sub, Bend;
    var k := Bend(x, y, x, y);
    var a, b := Mul(p.x, p.x), Mul(p.y, p.y);
    var h, g := Add(a, b), Sub(a, b);
    var e := Sub(h, Mul(Add(p.x, p.y), Add(p.x, p.y)));
    var f := Add(Mul(2, Mul(p.z, p.z)), g);
    var s, m, n, c := -2 * (x * y), 2 + (x * x - y * y), x * x - y * y, x * x + y * y;
    DoublingNumbers(p, x, y, w);
    Products(e, f, g, h, w * w, s, m, n, c);
    CurveDenominators(x * x - y * y, k);
    CongruentMul(Mul(e, f), Mul(e, f), n, -(1 + k));
    CongruentMul(Mul(g, h), Mul(g, h), m, 1 - k);
    Signs(Mul(e, f), 1 + k, Mul(f, g), x * y);
    BothNegated(Mul(e, f) * (1 + k), Mul(f, g) * (2 * (x * y)));
  }

  lemma CurveDenominators(n: int, k: int)
    requires Congruent(-n, 1 + k)
    ensures Congruent(n, -(1 + k)) && Congruent(2 + n, 1 - k)
  {
    var j := (-n) / P - (1 + k) / P;
    assert -n == 1 + k + P * j;
    CongruentBy(n, -(1 + k), -j);
    CongruentBy(2 + n, 1 - k, -j);
  }

  lemma Signs(a: int, k: int, b: int, m: int)
    ensures a * -k == -(a * k) && b * (-2 * m) == -(b * (2 * m))
  {
  }

  lemma BothNegated(a: int, b: int)
    requires Congruent(-a, -b)
    ensures Congruent(a, b)
  {
    var j := (-a) / P - (-b) / P;
    assert -a == -b + P * j;
    CongruentBy(a, b, -j);
  }
}
