// Arithmetic modulo the group order L of Ed25519 (RFC 8032 section 5.1), on
// little-endian arrays of 32-bit limbs: src/ota/monocypher.c:1597-1710.
module ScalarL {
  import opened Machine
  import opened Radix
  import opened Bytes

  const L_LIMBS: seq<int> := [
    0x5cf5d3ed, 0x5812631a, 0xa2f79cd6, 0x14def9de, 0, 0, 0, 0x10000000
  ]

  // L = 2^252 + 27742317777372353535851937790883648493
  const L: int := 0x10000000_00000000_00000000_00000000_14def9de_a2f79cd6_5812631a_5cf5d3ed

  // The group order as RFC 8032 section 5.1 gives it: 2^252 and a rest.
  lemma OrderIs()
    ensures L == 0x10000000_00000000_00000000_00000000_00000000_00000000_00000000_00000000
               + 27742317777372353535851937790883648493
  {
  }

  // The Barrett constant floor(2^512 / L).
  const R_LIMBS: seq<int> := [
    0x0a2c131b, 0xed9ce5a3, 0x086329a7, 0x2106215d,
    0xffffffeb, 0xffffffff, 0xffffffff, 0xffffffff, 0xf
  ]

  const R: int := 0xf_ffffffff_ffffffff_ffffffff_ffffffeb_2106215d_086329a7_ed9ce5a3_0a2c131b

  const TWO256: int := 0x1_00000000_00000000_00000000_00000000_00000000_00000000_00000000_00000000
  const TWO512: int := TWO256 * TWO256

  lemma PowersOfTwo32()
    ensures Pow(TWO32, 4) == 0x1_00000000_00000000_00000000_00000000
    ensures Pow(TWO32, 8) == TWO256
    ensures Pow(TWO32, 16) == TWO512
  {
    assert Pow(TWO32, 0) == 1;
    assert Pow(TWO32, 1) == TWO32;
    assert Pow(TWO32, 2) == 0x1_00000000_00000000;
    assert Pow(TWO32, 3) == 0x1_00000000_00000000_00000000;
    PowAdd(TWO32, 4, 4);
    PowAdd(TWO32, 8, 8);
  }

  // Reading off the value of an explicit list of limbs, one at a time.
  lemma ValCons(d: int, s: seq<int>)
    ensures Val(TWO32, [d] + s) == d + TWO32 * Val(TWO32, s)
  {
    assert ([d] + s)[1..] == s;
  }

  lemma Val4(a: int, b: int, c: int, d: int)
    ensures Val(TWO32, [a, b, c, d]) == a + TWO32 * (b + TWO32 * (c + TWO32 * d))
  {
    ValCons(d, []);
    ValCons(c, [d]);
    ValCons(b, [c, d]);
    ValCons(a, [b, c, d]);
    assert [d] + [] == [d] && [c] + [d] == [c, d] && [b] + [c, d] == [b, c, d];
    assert [a] + [b, c, d] == [a, b, c, d];
  }

  lemma LValue()
    ensures Val(TWO32, L_LIMBS) == L
  {
    PowersOfTwo32();
    hide Val, Pow;
    ValSplit(TWO32, L_LIMBS, 4);
    assert L_LIMBS[..4] == [L_LIMBS[0], L_LIMBS[1], L_LIMBS[2], L_LIMBS[3]];
    assert L_LIMBS[4..] == [0, 0, 0, 0x10000000];
    Val4(L_LIMBS[0], L_LIMBS[1], L_LIMBS[2], L_LIMBS[3]);
    Val4(0, 0, 0, 0x10000000);
  }

  lemma RValue()
    ensures Val(TWO32, R_LIMBS) == R
    ensures R * L <= TWO512 < (R + 1) * L
  {
    PowersOfTwo32();
    Empty(TWO32);
    hide Val, Pow;
    ValSplit(TWO32, R_LIMBS, 8);
    var low := R_LIMBS[..8];
    ValSplit(TWO32, low, 4);
    assert low[..4] == [R_LIMBS[0], R_LIMBS[1], R_LIMBS[2], R_LIMBS[3]];
    assert low[4..] == [R_LIMBS[4], R_LIMBS[5], R_LIMBS[6], R_LIMBS[7]];
    assert R_LIMBS[8..] == [0xf];
    Val4(R_LIMBS[0], R_LIMBS[1], R_LIMBS[2], R_LIMBS[3]);
    Val4(R_LIMBS[4], R_LIMBS[5], R_LIMBS[6], R_LIMBS[7]);
    ValCons(0xf, []);
    assert [0xf] + [] == [0xf];
  }

  lemma RowStep(q: int, done: int, was: int, b: int, m: int, c: int, o: int, bj: int, d: int, c2: int)
    requires done + q * c == was + m * b
    requires d + TWO32 * c2 == c + o + m * bj
    ensures done + q * d + (TWO32 * q) * c2 == (was + q * o) + m * (b + q * bj)
  {
    assert q * (d + TWO32 * c2) == q * (c + o + m * bj);
    assert q * (c + o + m * bj) == q * c + q * o + q * (m * bj);
    assert m * (b + q * bj) == m * b + m * (q * bj);
    assert q * (m * bj) == m * (q * bj);
    assert q * (d + TWO32 * c2) == q * d + (TWO32 * q) * c2;
  }

  lemma ProductFits(m: u32, b: u32)
    ensures 0 <= m * b <= 0xffff_ffff * 0xffff_ffff
  {
    MulMonotone(m, 0, b);
    MulMonotone(m, b, 0xffff_ffff);
    MulMonotone(0xffff_ffff, m, 0xffff_ffff);
  }

  // One row of schoolbook multiplication: p[at..] += m * b, over |b| limbs.
  // The running carry of the C loop never overflows 64 bits.
  method MulAddRow(p: array<u32>, at: nat, m: u32, b: seq<u32>) returns (carry: u32)
    requires at + |b| <= p.Length
    modifies p
    ensures p[..at] == old(p[..at]) && p[at + |b|..] == old(p[at + |b|..])
    ensures Val(TWO32, p[at..at + |b|]) + Pow(TWO32, |b|) * carry
         == Val(TWO32, old(p[at..at + |b|])) + m * Val(TWO32, b)
  {
    carry := 0;
    var j := 0;
    while j < |b|
      invariant 0 <= j <= |b|
      invariant p[..at] == old(p[..at]) && p[at + j..] == old(p[at + j..])
      invariant Val(TWO32, p[at..at + j]) + Pow(TWO32, j) * carry
             == Val(TWO32, old(p[at..at + j])) + m * Val(TWO32, b[..j])
    {
      ghost var done, was, c := p[at..at + j], old(p[at..at + j]), carry;
      assert p[at + j] == p[at + j..][0] == old(p[at + j..])[0] == old(p[at + j]);
      ProductFits(m, b[j]);
      var wide: u64 := carry + p[at + j] + m * b[j];
      p[at + j] := wide % TWO32;
      carry := wide / TWO32;
      ghost var q := Pow(TWO32, j);
      RowStep(q, Val(TWO32, done), Val(TWO32, was), Val(TWO32, b[..j]), m, c,
              old(p[at + j]), b[j], p[at + j], carry);
      ValSnoc(TWO32, done, p[at + j]);
      ValSnoc(TWO32, was, old(p[at + j]));
      ValTake(TWO32, b, j);
      assert p[at..at + j + 1] == done + [p[at + j]];
      assert old(p[at..at + j + 1]) == was + [old(p[at + j])];
      assert p[at + (j + 1)..] == p[at + j..][1..];
      assert old(p[at + (j + 1)..]) == old(p[at + j..])[1..];
      j := j + 1;
    }
    assert b[..|b|] == b;
  }

  lemma RowsStep(done: int, q: int, row: int, was: int, qb: int, carry: int, a: int, ai: int, b: int, c: int)
    requires done + q * was == c + a * b
    requires row + qb * carry == was + ai * b
    ensures done + q * row + (q * qb) * carry == c + (a + q * ai) * b
  {
    assert q * (row + qb * carry) == q * (was + ai * b);
    assert q * (row + qb * carry) == q * row + (q * qb) * carry;
    assert q * (was + ai * b) == q * was + (q * ai) * b;
    assert (a + q * ai) * b == a * b + (q * ai) * b;
  }

  // p = p[..|b|] + a * b, where p has room for the whole product. Limbs of p
  // from |b| up are overwritten, whatever they held.
  method Multiply(p: array<u32>, a: seq<u32>, b: seq<u32>)
    requires p.Length == |a| + |b|
    modifies p
    ensures Val(TWO32, p[..]) == Val(TWO32, old(p[..|b|])) + Val(TWO32, a) * Val(TWO32, b)
  {
    hide Val, Pow;
    Empty(TWO32);
    var i := 0;
    assert p[..0 + |b|] == p[..|b|] && a[..0] == [];
    while i < |a|
      invariant 0 <= i <= |a|
      invariant Val(TWO32, p[..i + |b|]) == Val(TWO32, old(p[..|b|])) + Val(TWO32, a[..i]) * Val(TWO32, b)
    {
      ghost var low, window := p[..i], p[i..i + |b|];
      ValSplit(TWO32, p[..i + |b|], i);
      assert p[..i + |b|][..i] == low && p[..i + |b|][i..] == window;
      var carry := MulAddRow(p, i, a[i], b);
      ghost var row := p[i..i + |b|];
      p[i + |b|] := carry;
      assert p[..i + |b| + 1] == (low + row) + [carry];
      ValSnoc(TWO32, low + row, carry);
      ValConcat(TWO32, low, row);
      PowAdd(TWO32, i, |b|);
      RowsStep(Val(TWO32, low), Pow(TWO32, i), Val(TWO32, row), Val(TWO32, window), Pow(TWO32, |b|), carry,
               Val(TWO32, a[..i]), a[i], Val(TWO32, b), Val(TWO32, old(p[..|b|])));
      ValTake(TWO32, a, i);
      i := i + 1;
    }
    assert a[..|a|] == a && p[..] == p[..|a| + |b|];
  }

  lemma CompareDigit(q: int, x: int, l: int, xi: int, li: int)
    requires 0 <= x < q && 0 <= l < q
    ensures x + q * xi >= l + q * li <==> xi > li || (xi == li && x >= l)
  {
    if xi > li {
      MulMonotone(q, li + 1, xi);
    } else if xi < li {
      MulMonotone(q, xi + 1, li);
    }
  }

  // Comparing one limb more: the more significant limb decides unless equal.
  lemma CompareLimb(x: seq<int>, l: seq<int>, i: nat)
    requires i < |x| && i < |l| && Digits(TWO32, x) && Digits(TWO32, l)
    ensures Val(TWO32, x[..i + 1]) >= Val(TWO32, l[..i + 1])
       <==> x[i] > l[i] || (x[i] == l[i] && Val(TWO32, x[..i]) >= Val(TWO32, l[..i]))
  {
    ValBound(TWO32, x[..i]);
    ValBound(TWO32, l[..i]);
    CompareDigit(Pow(TWO32, i), Val(TWO32, x[..i]), Val(TWO32, l[..i]), x[i], l[i]);
    ValTake(TWO32, x, i);
    ValTake(TWO32, l, i);
  }

  // 1 when x >= L, computed as the carry out of x + ~L + 1.
  method IsAboveL(x: array<u32>) returns (carry: u32)
    requires x.Length == 8
    ensures carry == if Val(TWO32, x[..]) >= L then 1 else 0
  {
    hide Val, Pow;
    Empty(TWO32);
    carry := 1;
    ghost var l: seq<int> := L_LIMBS;
    assert x[..0] == [] && l[..0] == [];
    for i := 0 to 8
      invariant carry == if Val(TWO32, x[..i]) >= Val(TWO32, l[..i]) then 1 else 0
    {
      CompareLimb(x[..], l, i);
      assert x[..][..i] == x[..i] && x[..][..i + 1] == x[..i + 1];
      var wide: u64 := carry + x[i] + (TWO32 - 1 - L_LIMBS[i]);
      carry := wide / TWO32;
    }
    LValue();
    assert x[..8] == x[..] && l[..8] == l;
  }

  lemma SubtractStep(q: int, out: int, c: int, x: int, y: int, xi: int, yi: int, d: int, c2: int)
    requires out + q * c == x + q - y
    requires d + TWO32 * c2 == c + xi + (TWO32 - 1 - yi)
    ensures out + q * d + (TWO32 * q) * c2 == (x + q * xi) + TWO32 * q - (y + q * yi)
  {
    assert q * (d + TWO32 * c2) == q * (c + xi + (TWO32 - 1 - yi));
    assert q * (d + TWO32 * c2) == q * d + (TWO32 * q) * c2;
    assert q * (c + xi + (TWO32 - 1 - yi)) == q * c + q * xi + TWO32 * q - q - q * yi;
  }

  // One limb of x + ~y + 1.
  lemma SubtractLimb(out: seq<int>, x: seq<int>, y: seq<int>, c: int, d: int, c2: int)
    requires |out| < |x| && |out| < |y|
    requires Val(TWO32, out) + Pow(TWO32, |out|) * c
          == Val(TWO32, x[..|out|]) + Pow(TWO32, |out|) - Val(TWO32, y[..|out|])
    requires d + TWO32 * c2 == c + x[|out|] + (TWO32 - 1 - y[|out|])
    ensures Val(TWO32, out + [d]) + Pow(TWO32, |out| + 1) * c2
         == Val(TWO32, x[..|out| + 1]) + Pow(TWO32, |out| + 1) - Val(TWO32, y[..|out| + 1])
  {
    var i := |out|;
    SubtractStep(Pow(TWO32, i), Val(TWO32, out), c, Val(TWO32, x[..i]), Val(TWO32, y[..i]), x[i], y[i], d, c2);
    ValSnoc(TWO32, out, d);
    ValTake(TWO32, x, i);
    ValTake(TWO32, y, i);
  }

  // Conditional subtraction of L. The C masks ~L with all ones or all zeroes
  // instead of branching; r and x may be the same array.
  method RemoveL(r: array<u32>, x: array<u32>)
    requires r.Length == 8 && x.Length == 8
    modifies r
    ensures var v := Val(TWO32, old(x[..]));
            Val(TWO32, r[..]) == if v >= L then v - L else v
  {
    hide Val, Pow;
    Empty(TWO32);
    var above := IsAboveL(x);
    var carry: u32 := above;
    ghost var x0: seq<int>, l: seq<int> := x[..], L_LIMBS;
    for i := 0 to 8
      invariant carry <= 1 && (forall k | i <= k < 8 :: x[k] == x0[k])
      invariant above == 0 ==> carry == 0 && r[..i] == x0[..i]
      invariant above == 1 ==>
        Val(TWO32, r[..i]) + Pow(TWO32, i) * carry
          == Val(TWO32, x0[..i]) + Pow(TWO32, i) - Val(TWO32, l[..i])
    {
      ghost var out, c := r[..i], carry;
      var wide: u64 := carry + x[i] + (if above == 1 then TWO32 - 1 - L_LIMBS[i] else 0);
      r[i] := wide % TWO32;
      carry := wide / TWO32;
      assert r[..i + 1] == out + [r[i]];
      if above == 1 {
        SubtractLimb(out, x0, l, c, r[i], carry);
      }
    }
    LValue();
    PowersOfTwo32();
    assert r[..8] == r[..] && x0[..8] == x0 && l[..8] == l;
    ValBound(TWO32, x0);
    ValBound(TWO32, r[..]);
  }

  // The quotient estimate floor(x*R / 2^512) is floor(x/L) or one less.
  lemma BarrettQuotient(x: int, q: int, rest: int)
    requires 0 <= x < TWO512
    requires x * R == rest + TWO512 * q && 0 <= rest < TWO512
    ensures 0 <= x - q * L < 2 * L
    ensures q == x / L || q == x / L - 1
  {
    RValue();
  }

  lemma TruncatedRow(y: int, y2: int, done: int, window: int, row: int, q: int, qi: int, q2: int,
                     l: int, l0: int, l1: int, pi: int, pr: int, carry: int, k: int)
    requires y == q * l - TWO256 * k
    requires y == done + pi * window && y2 == done + pi * row && q2 == q + pi * qi
    requires row + pr * carry == window + qi * l0
    requires l == l0 + pr * l1 && pi * pr == TWO256
    ensures y2 == q2 * l - TWO256 * (k + qi * l1 + carry)
  {
    assert pi * (row + pr * carry) == pi * (window + qi * l0);
    assert pi * (row + pr * carry) == pi * row + (pi * pr) * carry;
    assert pi * (window + qi * l0) == pi * window + pi * (qi * l0);
    assert (pi * qi) * l == pi * (qi * l0) + (pi * pr) * (qi * l1) by {
      assert (pi * qi) * (l0 + pr * l1) == pi * (qi * l0) + (pi * pr) * (qi * l1);
    }
    assert q2 * l == q * l + (pi * qi) * l;
  }

  lemma ComplementaryPowers(i: nat)
    requires i <= 8
    ensures Pow(TWO32, i) * Pow(TWO32, 8 - i) == TWO256
  {
    PowersOfTwo32();
    PowAdd(TWO32, i, 8 - i);
  }

  lemma QuotientStep(l: seq<int>, low: seq<int>, window: seq<int>, row: seq<int>, q: seq<int>,
                     carry: int, dropped: int)
    requires |l| == 8 && Val(TWO32, l) == L && |low| < 8 && |window| == |row| == 8 - |low| && |q| == 8
    requires Val(TWO32, low + window) == Val(TWO32, q[..|low|]) * L - TWO256 * dropped
    requires Val(TWO32, row) + Pow(TWO32, 8 - |low|) * carry
          == Val(TWO32, window) + q[|low|] * Val(TWO32, l[..8 - |low|])
    ensures Val(TWO32, low + row)
         == Val(TWO32, q[..|low| + 1]) * L
            - TWO256 * (dropped + q[|low|] * Val(TWO32, l[8 - |low|..]) + carry)
  {
    hide Val, Pow;
    var i := |low|;
    var cut := 8 - i;
    TruncatedRow(Val(TWO32, low + window), Val(TWO32, low + row),
                 Val(TWO32, low), Val(TWO32, window), Val(TWO32, row),
                 Val(TWO32, q[..i]), q[i], Val(TWO32, q[..i + 1]),
                 L, Val(TWO32, l[..cut]), Val(TWO32, l[cut..]),
                 Pow(TWO32, i), Pow(TWO32, cut), carry, dropped) by {
      ValConcat(TWO32, low, window);
      ValConcat(TWO32, low, row);
      ValSplit(TWO32, l, cut);
      ComplementaryPowers(i);
      ValTake(TWO32, q, i);
    }
  }

  // xr[..8] = low 256 bits of xr[16..24] * L; only the limbs that can matter
  // are computed. The ghost result is what the truncation dropped, in units of
  // 2^256.
  method QuotientTimesL(xr: array<u32>) returns (ghost dropped: int)
    requires xr.Length == 25
    modifies xr
    ensures xr[16..] == old(xr[16..])
    ensures Val(TWO32, xr[..8]) == Val(TWO32, old(xr[16..24])) * L - TWO256 * dropped
  {
    hide Val, Pow;
    Empty(TWO32);
    ghost var q: seq<int> := xr[16..24];
    for z := 0 to 8
      invariant forall i | 0 <= i < z :: xr[i] == 0
      invariant forall i | 16 <= i < 25 :: xr[i] == old(xr[i])
    {
      xr[z] := 0;
    }
    dropped := 0;
    ValZeros(TWO32, xr[..8]);
    ghost var l: seq<int> := L_LIMBS;
    LValue();
    for i := 0 to 8
      invariant forall k | 16 <= k < 25 :: xr[k] == old(xr[k])
      invariant Val(TWO32, xr[..8]) == Val(TWO32, q[..i]) * L - TWO256 * dropped
    {
      ghost var low: seq<int>, window: seq<int> := xr[..i], xr[i..8];
      assert xr[..8] == low + window;
      assert xr[i + 16] == old(xr[i + 16]) == q[i];
      ghost var above := xr[8..];
      var carry := MulAddRow(xr, i, xr[i + 16], L_LIMBS[..8 - i]);
      assert forall k | 16 <= k < 25 :: xr[k] == xr[8..][k - 8] && above[k - 8] == old(xr[k]);
      ghost var row: seq<int> := xr[i..8];
      assert xr[..8] == low + row;
      QuotientStep(l, low, window, row, q, carry, dropped);
      dropped := dropped + q[i] * Val(TWO32, l[8 - i..]) + carry;
    }
    assert q[..8] == q;
  }

  // y[..8] = x[..8] - y[..8] modulo 2^256, as x + ~y + 1.
  method SubtractFrom(y: array<u32>, x: seq<u32>) returns (carry: u32)
    requires y.Length >= 8 && |x| >= 8
    modifies y
    ensures carry <= 1
    ensures Val(TWO32, y[..8]) + TWO256 * carry
         == Val(TWO32, x[..8]) + TWO256 - Val(TWO32, old(y[..8]))
  {
    carry := 1;
    ghost var y0: seq<int> := y[..8];
    for i := 0 to 8
      invariant carry <= 1 && (forall k | i <= k < 8 :: y[k] == y0[k])
      invariant Val(TWO32, y[..i]) + Pow(TWO32, i) * carry
             == Val(TWO32, x[..i]) + Pow(TWO32, i) - Val(TWO32, y0[..i])
    {
      ghost var out, c := y[..i], carry;
      var wide: u64 := carry + x[i] + (TWO32 - 1 - y[i]);
      y[i] := wide % TWO32;
      carry := wide / TWO32;
      assert y[..i + 1] == out + [y[i]];
      SubtractLimb(out, x, y0, c, y[i], carry);
    }
    PowersOfTwo32();
    assert y0[..8] == y0;
  }

  lemma BarrettResult(x: int, xLow: int, xHigh: int, q: int, qLow: int, q9: int, y: int, dropped: int,
                      out: int, carry: int)
    requires x == xLow + TWO256 * xHigh && q == qLow + TWO256 * q9
    requires y == qLow * L - TWO256 * dropped
    requires out + TWO256 * carry == xLow + TWO256 - y
    requires 0 <= x - q * L < 2 * L
    requires 0 <= out < TWO256
    ensures out == x - q * L
  {
    var k := 1 - carry + dropped - xHigh + q9 * L;
    assert out == x - q * L + TWO256 * k;
    assert 2 * L < TWO256;
  }

  lemma BarrettSplit(x: seq<int>, product: seq<int>)
    requires |x| == 16 && |product| == 25 && Digits(TWO32, x) && Digits(TWO32, product)
    requires Val(TWO32, product) == R * Val(TWO32, x)
    ensures var q := Val(TWO32, product[16..24]) + TWO256 * product[24];
            0 <= Val(TWO32, x) - q * L < 2 * L
  {
    PowersOfTwo32();
    ValBound(TWO32, x);
    ValSplit(TWO32, product, 16);
    ValBound(TWO32, product[..16]);
    BarrettQuotient(Val(TWO32, x), Val(TWO32, product[16..]), Val(TWO32, product[..16]));
    assert product[16..] == product[16..24] + [product[24]];
    ValSnoc(TWO32, product[16..24], product[24]);
  }

  // x less its Barrett quotient times L: off by at most one L.
  method BarrettRemainder(x: seq<u32>) returns (reduced: array<u32>, ghost q: int)
    requires |x| == 16
    ensures fresh(reduced) && reduced.Length == 8
    ensures Val(TWO32, reduced[..]) == Val(TWO32, x) - q * L && 0 <= Val(TWO32, x) - q * L < 2 * L
  {
    hide Val, Pow;
    var xr := new u32[25](_ => 0);
    ghost var r: seq<int> := R_LIMBS;
    ValZeros(TWO32, xr[..16]);
    RValue();
    Multiply(xr, R_LIMBS, x);
    ghost var product: seq<int> := xr[..];
    BarrettSplit(x, product);
    ghost var q8, q9 := Val(TWO32, product[16..24]), product[24];
    q := q8 + TWO256 * q9;
    assert product[16..24] == xr[16..24];
    ghost var dropped := QuotientTimesL(xr);
    ghost var y := Val(TWO32, xr[..8]);
    var carry := SubtractFrom(xr, x);
    PowersOfTwo32();
    ValSplit(TWO32, x, 8);
    ValBound(TWO32, xr[..8]);
    BarrettResult(Val(TWO32, x), Val(TWO32, x[..8]), Val(TWO32, x[8..]), q, q8, q9,
                  y, dropped, Val(TWO32, xr[..8]), carry);
    reduced := new u32[8](i requires 0 <= i < 8 reads xr => xr[i]);
    assert reduced[..] == xr[..8];
  }

  // reduced = x mod L, for every 512-bit x.
  method ModL(x: seq<u32>) returns (reduced: array<u32>)
    requires |x| == 16
    ensures fresh(reduced) && reduced.Length == 8
    ensures Val(TWO32, reduced[..]) == Val(TWO32, x) % L
  {
    hide Val, Pow;
    ghost var q;
    reduced, q := BarrettRemainder(x);
    RemoveL(reduced, reduced);
    ReducedOnce(Val(TWO32, x), q);
  }

  lemma ReducedOnce(x: int, q: int)
    requires 0 <= x - q * L < 2 * L
    ensures (if x - q * L >= L then x - q * L - L else x - q * L) == x % L
  {
  }

  // A 512-bit hash reduced to a scalar.
  method EddsaReduce(expanded: seq<u8>) returns (reduced: array<u8>)
    requires |expanded| == 64
    ensures fresh(reduced) && reduced.Length == 32
    ensures Val(TWO8, reduced[..]) == Val(TWO8, expanded) % L
  {
    var x := Load32LeBuf(expanded, 16);
    var r := ModL(x[..]);
    reduced := Store32LeBuf(r);
  }

  // r = (a * b + c) mod L, for all 256-bit a, b and c.
  method EddsaMulAdd(a: seq<u8>, b: seq<u8>, c: seq<u8>) returns (r: array<u8>)
    requires |a| == 32 && |b| == 32 && |c| == 32
    ensures fresh(r) && r.Length == 32
    ensures Val(TWO8, r[..]) == (Val(TWO8, a) * Val(TWO8, b) + Val(TWO8, c)) % L
  {
    hide Val, Pow;
    var wa := Load32LeBuf(a, 8);
    var wb := Load32LeBuf(b, 8);
    var wc := Load32LeBuf(c, 8);
    var p := new u32[16](i requires 0 <= i < 16 reads wc => if i < 8 then wc[i] else 0);
    assert p[..8] == wc[..];
    Multiply(p, wa[..], wb[..]);
    var reduced := ModL(p[..]);
    r := Store32LeBuf(reduced);
  }
}
