// The encoding of a point, and what the last comparison of signature
// verification means by it: src/ota/monocypher.c:1733-1745 and 2051-2064.
module PointBytes {
  import opened Machine
  import opened Radix
  import opened Field25519
  import opened FieldBytes
  import opened Edwards
  import opened GroupOps

  // What fe_invert is assumed to do: its exponentiation is not modelled.
  ghost predicate Inverts(invert: Fe -> Fe) {
    forall f | Tight(f) && Residue(f) != 0 :: Tight(invert(f)) && Mul(Residue(f), Residue(invert(f))) == 1
  }

  const ZERO_POINT: seq<u8> := [1] + ZeroBytes()

  function ZeroBytes(): (z: seq<u8>)
    ensures |z| == 31 && forall i | 0 <= i < 31 :: z[i] == 0
  {
    seq(31, i => 0)
  }

  lemma ZeroPointValue()
    ensures |ZERO_POINT| == 32 && Val(TWO8, ZERO_POINT) == 1
  {
    ValZeros(TWO8, ZeroBytes());
    assert ZERO_POINT[1..] == ZeroBytes();
  }

  // s[31] ^= odd << 7
  function WithSign(s: seq<u8>, odd: int): (r: seq<u8>)
    requires |s| == 32 && 0 <= odd <= 1
    ensures |r| == 32
  {
    s[31 := (s[31] + 0x80 * odd) % 0x100]
  }

  lemma TopByteWeight()
    ensures 0x80 * Pow(TWO8, 31) == TWO255
  {
    assert Pow(TWO8, 0) == 1 && Pow(TWO8, 1) == 0x100;
    PowAdd(TWO8, 1, 1);
    PowAdd(TWO8, 2, 2);
    PowAdd(TWO8, 4, 4);
    PowAdd(TWO8, 8, 8);
    PowAdd(TWO8, 16, 8);
    PowAdd(TWO8, 24, 4);
    PowAdd(TWO8, 28, 2);
    PowAdd(TWO8, 30, 1);
  }

  // A field element leaves the top bit free.
  lemma TopBitFree(s: seq<u8>)
    requires |s| == 32 && Val(TWO8, s) < TWO255
    ensures s[31] < 0x80
  {
    ValTake(TWO8, s, 31);
    assert s[..32] == s;
    ValBound(TWO8, s[..31]);
    TopByteWeight();
    if s[31] >= 0x80 {
      MulMonotone(Pow(TWO8, 31), 0x80, s[31]);
    }
  }

  // The sign goes into bit 255 and leaves the rest alone.
  lemma SignWeight(s: seq<u8>, odd: int)
    requires |s| == 32 && 0 <= odd <= 1 && Val(TWO8, s) < TWO255
    ensures Val(TWO8, WithSign(s, odd)) == Val(TWO8, s) + TWO255 * odd
  {
    TopBitFree(s);
    TopByteWeight();
    hide Val, Pow;
    var r := WithSign(s, odd);
    ValTake(TWO8, s, 31);
    ValTake(TWO8, r, 31);
    assert s[..32] == s && r[..32] == r && r[..31] == s[..31];
    Raised(Pow(TWO8, 31), s[31], odd);
  }

  lemma Raised(p: int, d: int, odd: int)
    ensures p * (d + 0x80 * odd) == p * d + (0x80 * p) * odd
  {
  }

  // The encoding of the zero point is that of y = 1 and an even x.
  lemma IsZeroPoint(s: seq<u8>, odd: int)
    requires |s| == 32 && 0 <= odd <= 1 && Val(TWO8, s) < TWO255
    ensures WithSign(s, odd) == ZERO_POINT <==> Val(TWO8, s) == 1 && odd == 0
  {
    hide Val, Pow;
    ZeroPointValue();
    TopBitFree(s);
    if Val(TWO8, s) == 1 {
      ValInjective(TWO8, s, ZERO_POINT);
    }
    if WithSign(s, odd) == ZERO_POINT {
      assert WithSign(s, odd)[31] == 0;
      assert s == ZERO_POINT;
    }
  }

  // y/z is 1 exactly when y is z.
  lemma QuotientIsOne(y: int, z: int, r: int)
    requires 0 <= y < P && 0 <= z < P && Mul(z, r) == 1
    ensures Mul(y, r) == 1 <==> y == z
  {
    if Mul(y, r) == 1 {
      var j, k := (y * r) / P, (z * r) / P;
      assert y * r == 1 + P * j && z * r == 1 + P * k;
      Crossed(y, z, r, j, k);
      SmallMultiple(y - z, z * j - y * k);
    }
  }

  lemma Crossed(y: int, z: int, r: int, j: int, k: int)
    requires y * r == 1 + P * j && z * r == 1 + P * k
    ensures y - z == P * (z * j - y * k)
  {
    assert z * (y * r) == y * (z * r);
    assert z * (1 + P * j) == z + P * (z * j);
    assert y * (1 + P * k) == y + P * (y * k);
  }

  lemma SmallMultiple(d: int, m: int)
    requires d == P * m && -P < d < P
    ensures d == 0
  {
  }

  lemma ZeroTimes(r: int)
    ensures Mul(0, r) == 0
  {
  }

  // ge_tobytes.
  method GeToBytes(h: Ge, invert: Fe -> Fe) returns (s: array<u8>, ghost y: seq<u8>, ghost odd: int)
    requires h.Bounded() && Inverts(invert) && Residue(h.Z) != 0
    ensures fresh(s) && s.Length == 32 && |y| == 32 && 0 <= odd <= 1 && s[..] == WithSign(y, odd)
    ensures Val(TWO8, y) == Mul(Residue(h.Y), Residue(invert(h.Z)))
    ensures odd == Mul(Residue(h.X), Residue(invert(h.Z))) % 2
    ensures Val(TWO8, s[..]) == Mul(Residue(h.Y), Residue(invert(h.Z)))
                              + TWO255 * (Mul(Residue(h.X), Residue(invert(h.Z))) % 2)
  {
    hide Val, Tight, Mul;
    var recip := invert(h.Z);
    var x := Times(h.X, recip);
    var yOverZ := Times(h.Y, recip);
    s := FeToBytes(yOverZ);
    y := s[..];
    var sign := FeIsOdd(x);
    odd := sign;
    SignWeight(y, odd);
    s[31] := (s[31] + 0x80 * sign) % 0x100;
  }

  lemma ComparisonDecides(p: Ext, r: int, y: seq<u8>, odd: int)
    requires 0 <= p.y < P && 0 <= p.z < P && Mul(p.z, r) == 1 && (p.y == p.z ==> p.x == 0)
    requires |y| == 32 && 0 <= odd <= 1 && Val(TWO8, y) == Mul(p.y, r) && odd == Mul(p.x, r) % 2
    ensures WithSign(y, odd) == ZERO_POINT <==> p.y == p.z
  {
    hide Val, WithSign;
    QuotientIsOne(p.y, p.z, r);
    ZeroTimes(r);
    IsZeroPoint(y, odd);
  }

  lemma CoordsAreResidues(h: Ge)
    ensures 0 <= h.Coords().y < P && 0 <= h.Coords().z < P
  {
  }

  // ge_tobytes and the comparison with the zero point, for a point of which y
  // = z says it all: true for those of the curve.
  method IsNeutral(h: Ge, invert: Fe -> Fe) returns (neutral: bool)
    requires h.Bounded() && Inverts(invert) && h.Coords().z != 0
    requires h.Coords().y == h.Coords().z ==> h.Coords().x == 0
    ensures neutral <==> h.Coords().y == h.Coords().z
  {
    hide Tight, Val, WithSign, Mul, Residue;
    var s, y, odd := GeToBytes(h, invert);
    neutral := s[..] == ZERO_POINT;
    CoordsAreResidues(h);
    ComparisonDecides(h.Coords(), Residue(invert(h.Z)), y, odd);
  }
}
