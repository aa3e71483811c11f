// The point formulas of RFC 8032 section 5.1.4 over residues modulo P, and what
// is assumed about them: that they are the addition of an abelian group.
module Edwards {
  import opened Field25519
  import opened Group

  // ---- Residues ----

  function Mul(a: int, b: int): int { (a * b) % P }
  function Add(a: int, b: int): int { (a + b) % P }
  function Sub(a: int, b: int): int { (a - b) % P }
  function Neg(a: int): int { (-a) % P }

  // Extended coordinates: x = X/Z, y = Y/Z, T = X*Y/Z.
  datatype Ext = Ext(x: int, y: int, z: int, t: int)

  function Residue(f: Fe): int {
    FeVal(f) % P
  }

  // The curve constant d = -121665/121666, as the limb vectors of the source.
  const FE_D: Fe := Fe(-10913610, 13857413, -15372611, 6949391, 114729, -8787816, -6275908, -3247719, -18696448,
                       -12055116)
  const FE_D2: Fe := Fe(-21827239, -5839606, -30745221, 13898782, 229458, 15978800, -12551817, -6495438, 29715968,
                        9444199)

  lemma CurveConstants()
    ensures Mul(121666, Residue(FE_D)) == Neg(121665)
    ensures Residue(FE_D2) == Mul(2, Residue(FE_D))
    ensures Tight(FE_D2)
  {
  }

  // ---- RFC 8032 section 5.1.4 ----

  function RfcAdd(p: Ext, q: Ext): Ext {
    var a := Mul(Sub(p.y, p.x), Sub(q.y, q.x));
    var b := Mul(Add(p.y, p.x), Add(q.y, q.x));
    var c := Mul(Mul(Mul(p.t, 2), Residue(FE_D)), q.t);
    var d := Mul(Mul(p.z, 2), q.z);
    var e := Sub(b, a);
    var f := Sub(d, c);
    var g := Add(d, c);
    var h := Add(b, a);
    Ext(Mul(e, f), Mul(g, h), Mul(f, g), Mul(e, h))
  }

  function RfcDouble(p: Ext): Ext {
    var a := Mul(p.x, p.x);
    var b := Mul(p.y, p.y);
    var c := Mul(2, Mul(p.z, p.z));
    var h := Add(a, b);
    var e := Sub(h, Mul(Add(p.x, p.y), Add(p.x, p.y)));
    var g := Sub(a, b);
    var f := Add(c, g);
    Ext(Mul(e, f), Mul(g, h), Mul(f, g), Mul(e, h))
  }

  // The same projective point, all coordinates negated.
  function Flipped(p: Ext): Ext {
    Ext(Neg(p.x), Neg(p.y), Neg(p.z), Neg(p.t))
  }

  function Opposite(p: Ext): Ext {
    Ext(Neg(p.x), p.y, p.z, Neg(p.t))
  }

  const NEUTRAL: Ext := Ext(0, 1, 1, 0)

  // What is taken from the theory of Edwards curves and not proved here: a set
  // of coordinates closed under the formulas, which name points of an abelian
  // group in a way that makes the formulas its operations.
  datatype Curve<!G(!new)> = Curve(group: Group<G>, represents: Ext -> bool, point: Ext -> G) {

    ghost predicate on(p: Ext) {
      represents(p)
    }

    ghost function at(p: Ext): G {
      point(p)
    }

    ghost predicate Law() {
      && group.Abelian()
      && on(NEUTRAL) && at(NEUTRAL) == group.zero
      && (forall p, q | on(p) && on(q) :: on(RfcAdd(p, q)) && at(RfcAdd(p, q)) == group.add(at(p), at(q)))
      && (forall p | on(p) :: on(RfcDouble(p)) && at(RfcDouble(p)) == group.add(at(p), at(p)))
      && (forall p | on(p) :: on(Opposite(p)) && at(Opposite(p)) == group.neg(at(p)))
      && (forall p | on(p) :: on(Flipped(p)) && at(Flipped(p)) == at(p))
    }

    // Also taken from the theory: Z is never zero, and (0, 1) is the only point
    // with y = 1.
    ghost predicate NeutralAlone() {
      forall p | on(p) :: p.z != 0 && (p.y == p.z <==> at(p) == group.zero) && (p.y == p.z ==> p.x == 0)
    }

    lemma NeutralAloneLaw(p: Ext)
      requires NeutralAlone() && on(p)
      ensures p.z != 0 && (p.y == p.z <==> at(p) == group.zero) && (p.y == p.z ==> p.x == 0)
    {
    }

    lemma AddLaw(p: Ext, q: Ext)
      requires Law() && on(p) && on(q)
      ensures on(RfcAdd(p, q)) && at(RfcAdd(p, q)) == group.add(at(p), at(q))
    {
      hide RfcAdd;
    }

    lemma DoubleLaw(p: Ext)
      requires Law() && on(p)
      ensures on(Flipped(RfcDouble(p))) && at(Flipped(RfcDouble(p))) == group.add(at(p), at(p))
    {
      hide RfcDouble, Flipped;
    }

    lemma OppositeLaw(p: Ext)
      requires Law() && on(p)
      ensures on(Opposite(p)) && at(Opposite(p)) == group.neg(at(p))
    {
      hide Opposite;
    }

    lemma NeutralLaw()
      requires Law()
      ensures on(NEUTRAL) && at(NEUTRAL) == group.zero && group.Abelian()
    {
    }
  }

  // ---- Rules for residues ----

  lemma ModMul(a: int, b: int)
    ensures (a * b) % P == Mul(a % P, b % P)
  {
    var qa, ra, qb, rb := a / P, a % P, b / P, b % P;
    assert a == P * qa + ra && b == P * qb + rb;
    assert a * b == ra * rb + P * (qa * b + ra * qb) by {
      assert (P * qa + ra) * b == P * (qa * b) + ra * b;
      assert ra * b == ra * (P * qb + rb);
      assert ra * (P * qb + rb) == P * (ra * qb) + ra * rb;
    }
    CongruentBy(a * b, ra * rb, qa * b + ra * qb);
  }

  lemma ModAdd(a: int, b: int)
    ensures (a + b) % P == Add(a % P, b % P)
    ensures (a - b) % P == Sub(a % P, b % P)
    ensures (-a) % P == Neg(a % P)
  {
    CongruentBy(a + b, a % P + b % P, a / P + b / P);
    CongruentBy(a - b, a % P - b % P, a / P - b / P);
    CongruentBy(-a, -(a % P), -(a / P));
  }

  lemma MulCommutes(a: int, b: int)
    ensures Mul(a, b) == Mul(b, a)
  {
    assert a * b == b * a;
  }

  lemma MulAssociates(a: int, b: int, c: int)
    ensures Mul(Mul(a, b), c) == Mul(a, Mul(b, c))
  {
    var m, n := a * b, b * c;
    assert m * c == a * n;
    CongruentBy(m, m % P, m / P);
    CongruentTimes(m, m % P, c);
    CongruentTimes(n, n % P, a);
  }

  lemma CongruentTimes(a: int, b: int, c: int)
    requires Congruent(a, b)
    ensures (a * c) % P == (b * c) % P && (c * a) % P == (c * b) % P
  {
    var k := (a / P) - (b / P);
    assert a == b + P * k;
    assert a * c == b * c + P * (k * c);
    CongruentBy(a * c, b * c, k * c);
  }

  lemma TwiceIsSum(a: int)
    ensures Mul(a, 2) == Add(a, a) && Mul(2, a) == Add(a, a)
  {
  }

  // ge_add multiplies by a precomputed T * 2d; the RFC by 2, d and T in turn.
  lemma CachedFactor(t: int, qt: int, d: int, d2: int)
    requires d2 == Mul(2, d)
    ensures Mul(Mul(Mul(t, 2), d), qt) == Mul(t, Mul(qt, d2))
  {
    hide Mul;
    MulAssociates(t, 2, d);
    MulAssociates(t, d2, qt);
    MulCommutes(d2, qt);
  }

  // The addition as ge_add carries it out.
  function AddAsCoded(p: Ext, q: Ext, d2: int): Ext {
    var a := Mul(Add(p.y, p.x), Add(q.y, q.x));
    var b := Mul(Sub(p.y, p.x), Sub(q.y, q.x));
    var y, x := Add(a, b), Sub(a, b);
    var z, t := Mul(Add(p.z, p.z), q.z), Mul(p.t, Mul(q.t, d2));
    var u, v := Add(z, t), Sub(z, t);
    Ext(Mul(x, v), Mul(y, u), Mul(u, v), Mul(x, y))
  }

  lemma AddIsRfcAdd(p: Ext, q: Ext)
    ensures AddAsCoded(p, q, Residue(FE_D2)) == RfcAdd(p, q)
  {
    CurveConstants();
    hide Mul, Add, Sub, Residue;
    TwiceIsSum(p.z);
    CachedFactor(p.t, q.t, Residue(FE_D), Residue(FE_D2));
    var r := AddAsCoded(p, q, Residue(FE_D2));
    var a := Mul(Add(p.y, p.x), Add(q.y, q.x));
    var b := Mul(Sub(p.y, p.x), Sub(q.y, q.x));
    var z, t := Mul(Add(p.z, p.z), q.z), Mul(p.t, Mul(q.t, Residue(FE_D2)));
    MulCommutes(Add(z, t), Sub(z, t));
    MulCommutes(Add(z, t), Add(a, b));
  }

  // The doubling as ge_double carries it out.
  function DoubleAsCoded(p: Ext): Ext {
    var a, b, c := Mul(p.x, p.x), Mul(p.y, p.y), Mul(2, Mul(p.z, p.z));
    var t := Add(b, a);
    var y := Sub(b, a);
    var x := Sub(Mul(Add(p.x, p.y), Add(p.x, p.y)), t);
    var z := Sub(c, y);
    Ext(Mul(x, z), Mul(t, y), Mul(y, z), Mul(x, t))
  }

  lemma SubFlips(a: int, b: int)
    ensures Sub(a, b) == Neg(Sub(b, a))
  {
    CongruentBy(a - b, -((b - a) % P), -((b - a) / P));
  }

  lemma SignMoves(a: int, b: int)
    ensures -a * b == -(a * b) && b * -a == -(b * a)
  {
  }

  lemma MulNeg(a: int, b: int)
    ensures Mul(Neg(a), b) == Neg(Mul(a, b)) && Mul(b, Neg(a)) == Neg(Mul(b, a))
  {
    assert Congruent(Neg(a), -a) by {
      CongruentBy(Neg(a), -a, -((-a) / P));
    }
    CongruentTimes(Neg(a), -a, b);
    SignMoves(a, b);
    CongruentBy(-(a * b), -((a * b) % P), -((a * b) / P));
    CongruentBy(-(b * a), -((b * a) % P), -((b * a) / P));
  }

  lemma SubIsAdd(c: int, a: int, b: int)
    ensures Sub(c, Sub(b, a)) == Add(c, Sub(a, b))
  {
    CongruentBy(c - (b - a) % P, c + (a - b), (b - a) / P);
    CongruentBy(c + (a - b) % P, c + (a - b), -((a - b) / P));
  }

  lemma AddCommutes(a: int, b: int)
    ensures Add(a, b) == Add(b, a)
  {
  }

  // ge_double returns the RFC's coordinates with all four signs changed, which
  // is the same point.
  lemma DoubleIsRfcDouble(p: Ext)
    ensures DoubleAsCoded(p) == Flipped(RfcDouble(p))
  {
    hide Mul, Add, Sub, Neg;
    var a, b, c := Mul(p.x, p.x), Mul(p.y, p.y), Mul(2, Mul(p.z, p.z));
    AddCommutes(a, b);
    var h := Add(a, b);
    var m := Mul(Add(p.x, p.y), Add(p.x, p.y));
    var e := Sub(h, m);
    var g := Sub(a, b);
    var f := Add(c, g);
    SubFlips(m, h);
    SubFlips(b, a);
    SubIsAdd(c, a, b);
    MulNeg(e, f);
    MulNeg(g, h);
    MulNeg(g, f);
    MulNeg(e, h);
    MulCommutes(h, g);
    MulCommutes(h, Neg(g));
    MulCommutes(g, f);
  }

  // Changing the sign of x swaps y + x with y - x and changes the sign of t.
  lemma OppositeSwaps(q: Ext, d2: int)
    ensures Add(q.y, Opposite(q).x) == Sub(q.y, q.x)
    ensures Sub(q.y, Opposite(q).x) == Add(q.y, q.x)
    ensures Mul(Opposite(q).t, d2) == Neg(Mul(q.t, d2))
  {
    CongruentBy(q.y + Neg(q.x), q.y - q.x, -((-q.x) / P));
    CongruentBy(q.y - Neg(q.x), q.y + q.x, (-q.x) / P);
    MulNeg(q.t, d2);
  }

  lemma AddTimesOne(a: int, b: int)
    ensures Mul(Add(a, b), 1) == Add(a, b)
  {
  }
}
