// Point arithmetic on limb vectors: src/ota/monocypher.c:1711-1729 and
// 1795-1887. Every operation takes and leaves points with tight coordinates,
// which is what lets them follow one another without end.
module GroupOps {
  import opened Machine
  import opened Field25519
  import opened Edwards

  // ---- Field operations as operations on residues ----

  // Fit to be multiplied: by definition of the three bounds, just Loose, but a
  // caller that knows one of the others need not look at limbs.
  predicate Usable(f: Fe) {
    Tight(f) || Sum2(f) || Loose(f)
  }

  lemma UsableIsLoose(f: Fe)
    requires Usable(f)
    ensures Loose(f)
  {
  }

  method Times(f: Fe, g: Fe) returns (h: Fe)
    requires Usable(f) && Usable(g)
    ensures Tight(h) && Residue(h) == Mul(Residue(f), Residue(g))
  {
    UsableIsLoose(f);
    UsableIsLoose(g);
    h := FeMul(f, g);
    hide Mul, Tight, Loose, FeVal;
    ModMul(FeVal(f), FeVal(g));
  }

  method Square(f: Fe) returns (h: Fe)
    requires Usable(f)
    ensures Tight(h) && Residue(h) == Mul(Residue(f), Residue(f))
  {
    UsableIsLoose(f);
    h := FeSq(f);
    hide Mul, Tight, Loose, FeVal;
    ModMul(FeVal(f), FeVal(f));
  }

  method Doubled(f: Fe) returns (h: Fe)
    requires Usable(f)
    ensures Tight(h) && Residue(h) == Mul(2, Residue(f))
  {
    UsableIsLoose(f);
    h := FeMulSmall(f, 2);
    hide Tight, Loose, FeVal, Mul;
    TwiceModP(FeVal(f));
  }

  lemma TwiceModP(v: int)
    ensures (v * 2) % P == Mul(2, v % P)
  {
    CongruentBy(v * 2, 2 * (v % P), 2 * (v / P));
  }

  function Plus(f: Fe, g: Fe): (h: Fe)
    requires Usable(f) && Usable(g)
    ensures Residue(h) == Add(Residue(f), Residue(g))
    ensures Tight(f) && Tight(g) ==> Sum2(h)
    ensures Tight(f) && Sum2(g) ==> Loose(h)
  {
    hide Tight, Sum2, Loose, FeVal;
    UsableIsLoose(f);
    UsableIsLoose(g);
    ModAdd(FeVal(f), FeVal(g));
    FeAdd(f, g)
  }

  function Minus(f: Fe, g: Fe): (h: Fe)
    requires Usable(f) && Usable(g)
    ensures Residue(h) == Sub(Residue(f), Residue(g))
    ensures Tight(f) && Tight(g) ==> Sum2(h)
    ensures Tight(f) && Sum2(g) ==> Loose(h)
  {
    hide Tight, Sum2, Loose, FeVal;
    UsableIsLoose(f);
    UsableIsLoose(g);
    ModAdd(FeVal(f), FeVal(g));
    FeSub(f, g)
  }

  function Negative(f: Fe): (h: Fe)
    requires Usable(f)
    ensures Residue(h) == Neg(Residue(f))
    ensures Tight(f) ==> Tight(h)
  {
    hide Tight, Sum2, Loose, FeVal;
    UsableIsLoose(f);
    ModAdd(FeVal(f), FeVal(f));
    FeNeg(f)
  }

  const FE_0: Fe := Fe(0, 0, 0, 0, 0, 0, 0, 0, 0, 0)
  const FE_1: Fe := Fe(1, 0, 0, 0, 0, 0, 0, 0, 0, 0)

  // ---- Points ----

  // A point in extended coordinates, updated in place.
  class Ge {
    var X: Fe
    var Y: Fe
    var Z: Fe
    var T: Fe

    constructor (x: Fe, y: Fe, z: Fe, t: Fe)
      ensures X == x && Y == y && Z == z && T == t
    {
      X, Y, Z, T := x, y, z, t;
    }

    predicate Bounded()
      reads this
    {
      Tight(X) && Tight(Y) && Tight(Z) && Tight(T)
    }

    ghost function Coords(): Ext
      reads this
    {
      Ext(Residue(X), Residue(Y), Residue(Z), Residue(T))
    }
  }

  // ge_cached and ge_precomp are written once and read often.
  datatype GeCached = GeCached(Yp: Fe, Ym: Fe, Z: Fe, T2: Fe) {
    predicate Bounded() {
      Sum2(Yp) && Sum2(Ym) && Tight(Z) && Tight(T2)
    }

    ghost predicate Caches(q: Ext) {
      && Residue(Yp) == Add(q.y, q.x) && Residue(Ym) == Sub(q.y, q.x)
      && Residue(Z) == q.z && Residue(T2) == Mul(q.t, Residue(FE_D2))
    }
  }

  datatype GePrecomp = GePrecomp(Yp: Fe, Ym: Fe, T2: Fe) {
    predicate Bounded() {
      Sum2(Yp) && Sum2(Ym) && Tight(T2)
    }

    ghost predicate Caches(q: Ext) {
      && Residue(Yp) == Add(q.y, q.x) && Residue(Ym) == Sub(q.y, q.x)
      && q.z == 1 && Residue(T2) == Mul(q.t, Residue(FE_D2))
    }
  }

  method GeZero(p: Ge)
    modifies p
    ensures p.Bounded() && p.Coords() == NEUTRAL
  {
    p.X, p.Y, p.Z, p.T := FE_0, FE_1, FE_1, FE_0;
  }

  method GeCache(p: Ge) returns (c: GeCached)
    requires p.Bounded()
    ensures c.Bounded() && c.Caches(p.Coords())
  {
    hide Tight, Sum2, Loose, Residue, Mul, Add, Sub;
    CurveConstants();
    var t2 := Times(p.T, FE_D2);
    c := GeCached(Plus(p.Y, p.X), Minus(p.Y, p.X), p.Z, t2);
  }

  // s = p + q. s and p may be the same point.
  method GeAdd(s: Ge, p: Ge, q: GeCached, ghost q0: Ext)
    requires p.Bounded() && q.Bounded() && q.Caches(q0)
    modifies s
    ensures s.Bounded() && s.Coords() == RfcAdd(old(p.Coords()), q0)
  {
    hide Tight, Sum2, Loose, Residue, Mul, Add, Sub, RfcAdd;
    ghost var p0 := p.Coords();
    var a := Plus(p.Y, p.X);
    var b := Minus(p.Y, p.X);
    a := Times(a, q.Yp);
    b := Times(b, q.Ym);
    s.Y := Plus(a, b);
    s.X := Minus(a, b);
    s.Z := Plus(p.Z, p.Z);
    s.Z := Times(s.Z, q.Z);
    s.T := Times(p.T, q.T2);
    a := Plus(s.Z, s.T);
    b := Minus(s.Z, s.T);
    s.T := Times(s.X, s.Y);
    s.X := Times(s.X, b);
    s.Y := Times(s.Y, a);
    s.Z := Times(a, b);
    AddIsRfcAdd(p0, q0);
  }

  // s = p - q, as the addition of q with its sign changed.
  method GeSub(s: Ge, p: Ge, q: GeCached, ghost q0: Ext)
    requires p.Bounded() && q.Bounded() && q.Caches(q0)
    modifies s
    ensures s.Bounded() && s.Coords() == RfcAdd(old(p.Coords()), Opposite(q0))
  {
    hide Tight, Sum2, Loose, Residue, RfcAdd;
    var neg := GeCached(q.Ym, q.Yp, q.Z, Negative(q.T2));
    OppositeSwaps(q0, Residue(FE_D2));
    GeAdd(s, p, neg, Opposite(q0));
  }

  // s = p + q for a precomputed q, whose Z is 1. a and b are the scratch
  // buffers of the C function.
  method GeMadd(s: Ge, p: Ge, q: GePrecomp, ghost q0: Ext)
    requires p.Bounded() && q.Bounded() && q.Caches(q0)
    modifies s
    ensures s.Bounded() && s.Coords() == RfcAdd(old(p.Coords()), q0)
  {
    hide Tight, Sum2, Loose, Residue, Mul, Add, Sub, RfcAdd;
    ghost var p0 := p.Coords();
    var a := Plus(p.Y, p.X);
    var b := Minus(p.Y, p.X);
    a := Times(a, q.Yp);
    b := Times(b, q.Ym);
    s.Y := Plus(a, b);
    s.X := Minus(a, b);
    s.Z := Plus(p.Z, p.Z);
    s.T := Times(p.T, q.T2);
    a := Plus(s.Z, s.T);
    b := Minus(s.Z, s.T);
    s.T := Times(s.X, s.Y);
    s.X := Times(s.X, b);
    s.Y := Times(s.Y, a);
    s.Z := Times(a, b);
    AddTimesOne(p0.z, p0.z);
    AddIsRfcAdd(p0, q0);
  }

  method GeMsub(s: Ge, p: Ge, q: GePrecomp, ghost q0: Ext)
    requires p.Bounded() && q.Bounded() && q.Caches(q0)
    modifies s
    ensures s.Bounded() && s.Coords() == RfcAdd(old(p.Coords()), Opposite(q0))
  {
    hide Tight, Sum2, Loose, Residue, RfcAdd;
    var neg := GePrecomp(q.Ym, q.Yp, Negative(q.T2));
    OppositeSwaps(q0, Residue(FE_D2));
    GeMadd(s, p, neg, Opposite(q0));
  }

  // s = 2p, with q for scratch. s and p may be the same point; q is another.
  method GeDouble(s: Ge, p: Ge, q: Ge)
    requires p.Bounded() && q != p && q != s
    modifies s, q
    ensures s.Bounded() && s.Coords() == Flipped(RfcDouble(old(p.Coords())))
  {
    hide Tight, Sum2, Loose, Residue, Mul, Add, Sub, RfcDouble, Flipped;
    ghost var p0 := p.Coords();
    q.X := Square(p.X);
    q.Y := Square(p.Y);
    q.Z := Square(p.Z);
    q.Z := Doubled(q.Z);
    q.T := Plus(p.X, p.Y);
    s.T := Square(q.T);
    q.T := Plus(q.Y, q.X);
    q.Y := Minus(q.Y, q.X);
    q.X := Minus(s.T, q.T);
    q.Z := Minus(q.Z, q.Y);
    s.X := Times(q.X, q.Z);
    s.Y := Times(q.T, q.Y);
    s.Z := Times(q.Y, q.Z);
    s.T := Times(q.X, q.T);
    DoubleIsRfcDouble(p0);
  }
}
