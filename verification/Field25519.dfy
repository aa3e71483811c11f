// Arithmetic modulo 2^255 - 19 on ten signed limbs of alternately 26 and 25
// bits: src/ota/monocypher.c:928-1371.
module Field25519 {
  import opened Machine
  import opened Radix
  import opened Bytes

  const P: int := 0x7fffffff_ffffffff_ffffffff_ffffffff_ffffffff_ffffffff_ffffffff_ffffffed
  const TWO255: int := 0x80000000_00000000_00000000_00000000_00000000_00000000_00000000_00000000

  // A field element: the ten limbs of the C buffer. The C code reads and writes
  // them one by one, unrolled, so they have names here.
  datatype Fe = Fe(t0: i32, t1: i32, t2: i32, t3: i32, t4: i32, t5: i32, t6: i32, t7: i32, t8: i32, t9: i32)

  // Limb i weighs 2^ceil(25.5 * i).
  const E1: int := 0x4000000  // 2^26
  const E2: int := 0x80000_00000000  // 2^51
  const E3: int := 0x2000_00000000_00000000  // 2^77
  const E4: int := 0x40_00000000_00000000_00000000  // 2^102
  const E5: int := 0x1_00000000_00000000_00000000_00000000  // 2^128
  const E6: int := 0x2000000_00000000_00000000_00000000_00000000  // 2^153
  const E7: int := 0x80000_00000000_00000000_00000000_00000000_00000000  // 2^179
  const E8: int := 0x1000_00000000_00000000_00000000_00000000_00000000_00000000  // 2^204
  const E9: int := 0x40_00000000_00000000_00000000_00000000_00000000_00000000_00000000  // 2^230

  function Value(t0: int, t1: int, t2: int, t3: int, t4: int, t5: int, t6: int, t7: int, t8: int, t9: int): int {
    t0 + E1 * t1 + E2 * t2 + E3 * t3 + E4 * t4
    + E5 * t5 + E6 * t6 + E7 * t7 + E8 * t8 + E9 * t9
  }

  // The integer a limb vector stands for.
  function FeVal(f: Fe): int {
    Value(f.t0, f.t1, f.t2, f.t3, f.t4, f.t5, f.t6, f.t7, f.t8, f.t9)
  }

  // The limbs are below 1.1 * 2^25 (even) and 1.1 * 2^24 (odd) in magnitude:
  // what every carry leaves.
  predicate Tight(f: Fe) {
    && -36909875 <= f.t0 <= 36909875 && -18454937 <= f.t1 <= 18454937
    && -36909875 <= f.t2 <= 36909875 && -18454937 <= f.t3 <= 18454937
    && -36909875 <= f.t4 <= 36909875 && -18454937 <= f.t5 <= 18454937
    && -36909875 <= f.t6 <= 36909875 && -18454937 <= f.t7 <= 18454937
    && -36909875 <= f.t8 <= 36909875 && -18454937 <= f.t9 <= 18454937
  }

  // The limbs are below 1.1 * 2^26 (even) and 1.1 * 2^25 (odd) in magnitude:
  // a sum or difference of two tight elements.
  predicate Sum2(f: Fe) {
    && -73819750 <= f.t0 <= 73819750 && -36909875 <= f.t1 <= 36909875
    && -73819750 <= f.t2 <= 73819750 && -36909875 <= f.t3 <= 36909875
    && -73819750 <= f.t4 <= 73819750 && -36909875 <= f.t5 <= 36909875
    && -73819750 <= f.t6 <= 73819750 && -36909875 <= f.t7 <= 36909875
    && -73819750 <= f.t8 <= 73819750 && -36909875 <= f.t9 <= 36909875
  }

  // The limbs are below 1.65 * 2^26 (even) and 1.65 * 2^25 (odd) in magnitude:
  // what every product accepts.
  predicate Loose(f: Fe) {
    && -110729625 <= f.t0 <= 110729625 && -55364812 <= f.t1 <= 55364812
    && -110729625 <= f.t2 <= 110729625 && -55364812 <= f.t3 <= 55364812
    && -110729625 <= f.t4 <= 110729625 && -55364812 <= f.t5 <= 55364812
    && -110729625 <= f.t6 <= 110729625 && -55364812 <= f.t7 <= 55364812
    && -110729625 <= f.t8 <= 110729625 && -55364812 <= f.t9 <= 55364812
  }

  ghost predicate Congruent(a: int, b: int) {
    a % P == b % P
  }

  lemma CongruentBy(a: int, b: int, k: int)
    requires a == b + P * k
    ensures Congruent(a, b)
  {
  }

  predicate Below62(t: int) {
    -0x4000_0000_0000_0000 < t < 0x4000_0000_0000_0000
  }

  predicate Near62(t: int) {
    -0x4000_0040_0000_0000 < t < 0x4000_0040_0000_0000
  }

  // Signed carries: what is left after removing c is in [-2^25, 2^25), or in
  // [-2^24, 2^24). The rounding term is added in 64 bits.
  function Carry26(t: i64): (c: i64)
    requires t + 0x200_0000 < 0x8000_0000_0000_0000
    ensures -0x200_0000 <= t - c * 0x400_0000 < 0x200_0000
  {
    (t + 0x200_0000) / 0x400_0000
  }

  function Carry25(t: i64): (c: i64)
    requires t + 0x100_0000 < 0x8000_0000_0000_0000
    ensures -0x100_0000 <= t - c * 0x200_0000 < 0x100_0000
  {
    (t + 0x100_0000) / 0x200_0000
  }

  // The first eight carries of FE_CARRY. Every addition stays within 64 bits when
  // the limbs are below 2^62 (t0 may be larger, but must leave room for the
  // rounding term).
  method FirstCarries(u0: i64, u1: i64, u2: i64, u3: i64, u4: i64, u5: i64, u6: i64, u7: i64, u8: i64, u9: i64)
    returns (t0: i64, t1: i64, t2: i64, t3: i64, t4: i64, t5: i64, t6: i64, t7: i64, t8: i64, t9: i64)
    requires -0x8000_0000_0000_0000 <= u0 < 0x8000_0000_0000_0000 - 0x200_0000
    requires Below62(u1) && Below62(u2) && Below62(u3) && Below62(u4) && Below62(u5)
    requires Below62(u6) && Below62(u7) && Below62(u8) && Below62(u9)
    ensures Value(t0, t1, t2, t3, t4, t5, t6, t7, t8, t9) == Value(u0, u1, u2, u3, u4, u5, u6, u7, u8, u9)
    ensures -0x200_0000 <= t0 < 0x200_0000 && -0x100_0000 <= t1 < 0x100_0000 && -0x200_0000 <= t2 < 0x200_0000
    ensures -0x100_0000 <= t3 < 0x100_0000 && -0x80_0000_0000 < t4 < 0x80_0000_0000 && -0x100_0000 <= t5 < 0x100_0000
    ensures -0x200_0000 <= t6 < 0x200_0000 && -0x100_0000 <= t7 < 0x100_0000 && Near62(t8) && Below62(t9)
  {
    hide Carry26, Carry25;
    var c: i64;
    t0, t1, t2, t3, t4, t5, t6, t7, t8, t9 := u0, u1, u2, u3, u4, u5, u6, u7, u8, u9;
    c := Carry26(t0);  t0 := t0 - c * 0x400_0000;  t1 := t1 + c;
    c := Carry26(t4);  t4 := t4 - c * 0x400_0000;  t5 := t5 + c;
    c := Carry25(t1);  t1 := t1 - c * 0x200_0000;  t2 := t2 + c;
    c := Carry25(t5);  t5 := t5 - c * 0x200_0000;  t6 := t6 + c;
    c := Carry26(t2);  t2 := t2 - c * 0x400_0000;  t3 := t3 + c;
    c := Carry26(t6);  t6 := t6 - c * 0x400_0000;  t7 := t7 + c;
    c := Carry25(t3);  t3 := t3 - c * 0x200_0000;  t4 := t4 + c;
    c := Carry25(t7);  t7 := t7 - c * 0x200_0000;  t8 := t8 + c;
  }

  // The last four carries. The ghost result says how often 2^255 was folded back
  // as 19.
  method LastCarries(u0: i64, u1: i64, u2: i64, u3: i64, u4: i64, u5: i64, u6: i64, u7: i64, u8: i64, u9: i64)
    returns (h: Fe, ghost wrapped: int)
    requires -0x200_0000 <= u0 < 0x200_0000 && -0x100_0000 <= u1 < 0x100_0000 && -0x200_0000 <= u2 < 0x200_0000
    requires -0x100_0000 <= u3 < 0x100_0000 && -0x80_0000_0000 < u4 < 0x80_0000_0000 && -0x100_0000 <= u5 < 0x100_0000
    requires -0x200_0000 <= u6 < 0x200_0000 && -0x100_0000 <= u7 < 0x100_0000 && Near62(u8) && Below62(u9)
    ensures Tight(h)
    ensures FeVal(h) + P * wrapped == Value(u0, u1, u2, u3, u4, u5, u6, u7, u8, u9)
  {
    hide Carry26, Carry25;
    var c: i64;
    var t0: i64, t1: i64, t4: i64, t5: i64, t8: i64, t9: i64 := u0, u1, u4, u5, u8, u9;
    c := Carry26(t4);  t4 := t4 - c * 0x400_0000;  t5 := t5 + c;
    c := Carry26(t8);  t8 := t8 - c * 0x400_0000;  t9 := t9 + c;
    c := Carry25(t9);  t9 := t9 - c * 0x200_0000;  t0 := t0 + c * 19;  wrapped := c;
    c := Carry26(t0);  t0 := t0 - c * 0x400_0000;  t1 := t1 + c;
    h := Fe(t0, t1, u2, u3, t4, t5, u6, u7, t8, t9);
  }

  // FE_CARRY.
  method FeCarry(u0: i64, u1: i64, u2: i64, u3: i64, u4: i64, u5: i64, u6: i64, u7: i64, u8: i64, u9: i64)
    returns (h: Fe, ghost wrapped: int)
    requires -0x8000_0000_0000_0000 <= u0 < 0x8000_0000_0000_0000 - 0x200_0000
    requires Below62(u1) && Below62(u2) && Below62(u3) && Below62(u4) && Below62(u5)
    requires Below62(u6) && Below62(u7) && Below62(u8) && Below62(u9)
    ensures Tight(h)
    ensures FeVal(h) + P * wrapped == Value(u0, u1, u2, u3, u4, u5, u6, u7, u8, u9)
  {
    hide Value, Tight;
    var t0, t1, t2, t3, t4, t5, t6, t7, t8, t9 := FirstCarries(u0, u1, u2, u3, u4, u5, u6, u7, u8, u9);
    h, wrapped := LastCarries(t0, t1, t2, t3, t4, t5, t6, t7, t8, t9);
  }

  // The exact product, kept as a name of its own so that sums of products are
  // linear facts.
  ghost function Prod(x: int, y: int): int {
    x * y
  }

  // A 64-bit product of two scaled 32-bit limbs, as in F1 * (i64) G9 with
  // F1 = f1 * 2 and G9 = g9 * 19; the scaling is done in 32 bits.
  function Scaled(cx: int, x: i32, cy: int, y: i32): (r: i64)
    requires 0 < cx && 0 < cy && -221459250 <= cx * x <= 221459250 && -2103862875 <= cy * y <= 2103862875
    ensures r == (cx * cy) * Prod(x, y)
    ensures Below59(r)
    ensures -110729625 <= cx * x <= 110729625 ==> Below58(r)
  {
    var sx: i32, sy: i32 := cx * x, cy * y;
    MulBound(sx, sy, 221459250, 2103862875);
    if -110729625 <= sx <= 110729625 then MulBound(sx, sy, 110729625, 2103862875); sx * sy else sx * sy
  }

  predicate Below58(t: int) {
    -0x400_0000_0000_0000 < t < 0x400_0000_0000_0000
  }

  predicate Below59(t: int) {
    -0x800_0000_0000_0000 < t < 0x800_0000_0000_0000
  }

  lemma MulBound(x: int, y: int, xMax: int, yMax: int)
    requires -xMax <= x <= xMax && -yMax <= y <= yMax
    ensures -(xMax * yMax) <= x * y <= xMax * yMax
  {
    var u, v := (if x < 0 then -x else x), (if y < 0 then -y else y);
    MulMonotone(u, v, yMax);
    MulMonotone(yMax, u, xMax);
    assert x * y == u * v || x * y == -(u * v);
  }

  // Five products below 2^58: no partial sum leaves 64 bits, in any order.
  function Sum5(a: i64, b: i64, c: i64, d: i64, e: i64): (r: i64)
    requires Below58(a) && Below58(b) && Below58(c) && Below58(d) && Below58(e)
    ensures r == a + b + c + d + e
    ensures Below61(r)
  {
    a + b + c + d + e
  }

  predicate Below61(t: int) {
    -0x2000_0000_0000_0000 < t < 0x2000_0000_0000_0000
  }

  // The limbs of a product before carrying, as the source adds them: five
  // products to a line, two lines to a limb. A limb of f is doubled where two
  // 25-bit limbs meet; a limb of g is multiplied by 19 where the weights pass
  // 2^255.
  function FirstLine0(f: Fe, g: Fe): (t: i64)
    requires Loose(f) && Loose(g)
    ensures Below61(t)
    ensures t == Prod(f.t0, g.t0) + 38 * Prod(f.t1, g.t9) + 19 * Prod(f.t2, g.t8) + 38 * Prod(f.t3, g.t7)
                 + 19 * Prod(f.t4, g.t6)
  {
    hide Scaled, Prod;
    Sum5(Scaled(1, f.t0, 1, g.t0), Scaled(2, f.t1, 19, g.t9), Scaled(1, f.t2, 19, g.t8),
         Scaled(2, f.t3, 19, g.t7), Scaled(1, f.t4, 19, g.t6))
  }

  function SecondLine0(f: Fe, g: Fe): (t: i64)
    requires Loose(f) && Loose(g)
    ensures Below61(t)
    ensures t == 38 * Prod(f.t5, g.t5) + 19 * Prod(f.t6, g.t4) + 38 * Prod(f.t7, g.t3) + 19 * Prod(f.t8, g.t2)
                 + 38 * Prod(f.t9, g.t1)
  {
    hide Scaled, Prod;
    Sum5(Scaled(2, f.t5, 19, g.t5), Scaled(1, f.t6, 19, g.t4), Scaled(2, f.t7, 19, g.t3),
         Scaled(1, f.t8, 19, g.t2), Scaled(2, f.t9, 19, g.t1))
  }

  function FirstLine1(f: Fe, g: Fe): (t: i64)
    requires Loose(f) && Loose(g)
    ensures Below61(t)
    ensures t == Prod(f.t0, g.t1) + Prod(f.t1, g.t0) + 19 * Prod(f.t2, g.t9) + 19 * Prod(f.t3, g.t8)
                 + 19 * Prod(f.t4, g.t7)
  {
    hide Scaled, Prod;
    Sum5(Scaled(1, f.t0, 1, g.t1), Scaled(1, f.t1, 1, g.t0), Scaled(1, f.t2, 19, g.t9),
         Scaled(1, f.t3, 19, g.t8), Scaled(1, f.t4, 19, g.t7))
  }

  function SecondLine1(f: Fe, g: Fe): (t: i64)
    requires Loose(f) && Loose(g)
    ensures Below61(t)
    ensures t == 19 * Prod(f.t5, g.t6) + 19 * Prod(f.t6, g.t5) + 19 * Prod(f.t7, g.t4) + 19 * Prod(f.t8, g.t3)
                 + 19 * Prod(f.t9, g.t2)
  {
    hide Scaled, Prod;
    Sum5(Scaled(1, f.t5, 19, g.t6), Scaled(1, f.t6, 19, g.t5), Scaled(1, f.t7, 19, g.t4),
         Scaled(1, f.t8, 19, g.t3), Scaled(1, f.t9, 19, g.t2))
  }

  function FirstLine2(f: Fe, g: Fe): (t: i64)
    requires Loose(f) && Loose(g)
    ensures Below61(t)
    ensures t == Prod(f.t0, g.t2) + 2 * Prod(f.t1, g.t1) + Prod(f.t2, g.t0) + 38 * Prod(f.t3, g.t9)
                 + 19 * Prod(f.t4, g.t8)
  {
    hide Scaled, Prod;
    Sum5(Scaled(1, f.t0, 1, g.t2), Scaled(2, f.t1, 1, g.t1), Scaled(1, f.t2, 1, g.t0),
         Scaled(2, f.t3, 19, g.t9), Scaled(1, f.t4, 19, g.t8))
  }

  function SecondLine2(f: Fe, g: Fe): (t: i64)
    requires Loose(f) && Loose(g)
    ensures Below61(t)
    ensures t == 38 * Prod(f.t5, g.t7) + 19 * Prod(f.t6, g.t6) + 38 * Prod(f.t7, g.t5) + 19 * Prod(f.t8, g.t4)
                 + 38 * Prod(f.t9, g.t3)
  {
    hide Scaled, Prod;
    Sum5(Scaled(2, f.t5, 19, g.t7), Scaled(1, f.t6, 19, g.t6), Scaled(2, f.t7, 19, g.t5),
         Scaled(1, f.t8, 19, g.t4), Scaled(2, f.t9, 19, g.t3))
  }

  function FirstLine3(f: Fe, g: Fe): (t: i64)
    requires Loose(f) && Loose(g)
    ensures Below61(t)
    ensures t == Prod(f.t0, g.t3) + Prod(f.t1, g.t2) + Prod(f.t2, g.t1) + Prod(f.t3, g.t0) + 19 * Prod(f.t4, g.t9)
  {
    hide Scaled, Prod;
    Sum5(Scaled(1, f.t0, 1, g.t3), Scaled(1, f.t1, 1, g.t2), Scaled(1, f.t2, 1, g.t1),
         Scaled(1, f.t3, 1, g.t0), Scaled(1, f.t4, 19, g.t9))
  }

  function SecondLine3(f: Fe, g: Fe): (t: i64)
    requires Loose(f) && Loose(g)
    ensures Below61(t)
    ensures t == 19 * Prod(f.t5, g.t8) + 19 * Prod(f.t6, g.t7) + 19 * Prod(f.t7, g.t6) + 19 * Prod(f.t8, g.t5)
                 + 19 * Prod(f.t9, g.t4)
  {
    hide Scaled, Prod;
    Sum5(Scaled(1, f.t5, 19, g.t8), Scaled(1, f.t6, 19, g.t7), Scaled(1, f.t7, 19, g.t6),
         Scaled(1, f.t8, 19, g.t5), Scaled(1, f.t9, 19, g.t4))
  }

  function FirstLine4(f: Fe, g: Fe): (t: i64)
    requires Loose(f) && Loose(g)
    ensures Below61(t)
    ensures t == Prod(f.t0, g.t4) + 2 * Prod(f.t1, g.t3) + Prod(f.t2, g.t2) + 2 * Prod(f.t3, g.t1) + Prod(f.t4, g.t0)
  {
    hide Scaled, Prod;
    Sum5(Scaled(1, f.t0, 1, g.t4), Scaled(2, f.t1, 1, g.t3), Scaled(1, f.t2, 1, g.t2),
         Scaled(2, f.t3, 1, g.t1), Scaled(1, f.t4, 1, g.t0))
  }

  function SecondLine4(f: Fe, g: Fe): (t: i64)
    requires Loose(f) && Loose(g)
    ensures Below61(t)
    ensures t == 38 * Prod(f.t5, g.t9) + 19 * Prod(f.t6, g.t8) + 38 * Prod(f.t7, g.t7) + 19 * Prod(f.t8, g.t6)
                 + 38 * Prod(f.t9, g.t5)
  {
    hide Scaled, Prod;
    Sum5(Scaled(2, f.t5, 19, g.t9), Scaled(1, f.t6, 19, g.t8), Scaled(2, f.t7, 19, g.t7),
         Scaled(1, f.t8, 19, g.t6), Scaled(2, f.t9, 19, g.t5))
  }

  function FirstLine5(f: Fe, g: Fe): (t: i64)
    requires Loose(f) && Loose(g)
    ensures Below61(t)
    ensures t == Prod(f.t0, g.t5) + Prod(f.t1, g.t4) + Prod(f.t2, g.t3) + Prod(f.t3, g.t2) + Prod(f.t4, g.t1)
  {
    hide Scaled, Prod;
    Sum5(Scaled(1, f.t0, 1, g.t5), Scaled(1, f.t1, 1, g.t4), Scaled(1, f.t2, 1, g.t3),
         Scaled(1, f.t3, 1, g.t2), Scaled(1, f.t4, 1, g.t1))
  }

  function SecondLine5(f: Fe, g: Fe): (t: i64)
    requires Loose(f) && Loose(g)
    ensures Below61(t)
    ensures t == Prod(f.t5, g.t0) + 19 * Prod(f.t6, g.t9) + 19 * Prod(f.t7, g.t8) + 19 * Prod(f.t8, g.t7)
                 + 19 * Prod(f.t9, g.t6)
  {
    hide Scaled, Prod;
    Sum5(Scaled(1, f.t5, 1, g.t0), Scaled(1, f.t6, 19, g.t9), Scaled(1, f.t7, 19, g.t8),
         Scaled(1, f.t8, 19, g.t7), Scaled(1, f.t9, 19, g.t6))
  }

  function FirstLine6(f: Fe, g: Fe): (t: i64)
    requires Loose(f) && Loose(g)
    ensures Below61(t)
    ensures t == Prod(f.t0, g.t6) + 2 * Prod(f.t1, g.t5) + Prod(f.t2, g.t4) + 2 * Prod(f.t3, g.t3) + Prod(f.t4, g.t2)
  {
    hide Scaled, Prod;
    Sum5(Scaled(1, f.t0, 1, g.t6), Scaled(2, f.t1, 1, g.t5), Scaled(1, f.t2, 1, g.t4),
         Scaled(2, f.t3, 1, g.t3), Scaled(1, f.t4, 1, g.t2))
  }

  function SecondLine6(f: Fe, g: Fe): (t: i64)
    requires Loose(f) && Loose(g)
    ensures Below61(t)
    ensures t == 2 * Prod(f.t5, g.t1) + Prod(f.t6, g.t0) + 38 * Prod(f.t7, g.t9) + 19 * Prod(f.t8, g.t8)
                 + 38 * Prod(f.t9, g.t7)
  {
    hide Scaled, Prod;
    Sum5(Scaled(2, f.t5, 1, g.t1), Scaled(1, f.t6, 1, g.t0), Scaled(2, f.t7, 19, g.t9),
         Scaled(1, f.t8, 19, g.t8), Scaled(2, f.t9, 19, g.t7))
  }

  function FirstLine7(f: Fe, g: Fe): (t: i64)
    requires Loose(f) && Loose(g)
    ensures Below61(t)
    ensures t == Prod(f.t0, g.t7) + Prod(f.t1, g.t6) + Prod(f.t2, g.t5) + Prod(f.t3, g.t4) + Prod(f.t4, g.t3)
  {
    hide Scaled, Prod;
    Sum5(Scaled(1, f.t0, 1, g.t7), Scaled(1, f.t1, 1, g.t6), Scaled(1, f.t2, 1, g.t5),
         Scaled(1, f.t3, 1, g.t4), Scaled(1, f.t4, 1, g.t3))
  }

  function SecondLine7(f: Fe, g: Fe): (t: i64)
    requires Loose(f) && Loose(g)
    ensures Below61(t)
    ensures t == Prod(f.t5, g.t2) + Prod(f.t6, g.t1) + Prod(f.t7, g.t0) + 19 * Prod(f.t8, g.t9) + 19 * Prod(f.t9, g.t8)
  {
    hide Scaled, Prod;
    Sum5(Scaled(1, f.t5, 1, g.t2), Scaled(1, f.t6, 1, g.t1), Scaled(1, f.t7, 1, g.t0),
         Scaled(1, f.t8, 19, g.t9), Scaled(1, f.t9, 19, g.t8))
  }

  function FirstLine8(f: Fe, g: Fe): (t: i64)
    requires Loose(f) && Loose(g)
    ensures Below61(t)
    ensures t == Prod(f.t0, g.t8) + 2 * Prod(f.t1, g.t7) + Prod(f.t2, g.t6) + 2 * Prod(f.t3, g.t5) + Prod(f.t4, g.t4)
  {
    hide Scaled, Prod;
    Sum5(Scaled(1, f.t0, 1, g.t8), Scaled(2, f.t1, 1, g.t7), Scaled(1, f.t2, 1, g.t6),
         Scaled(2, f.t3, 1, g.t5), Scaled(1, f.t4, 1, g.t4))
  }

  function SecondLine8(f: Fe, g: Fe): (t: i64)
    requires Loose(f) && Loose(g)
    ensures Below61(t)
    ensures t == 2 * Prod(f.t5, g.t3) + Prod(f.t6, g.t2) + 2 * Prod(f.t7, g.t1) + Prod(f.t8, g.t0)
                 + 38 * Prod(f.t9, g.t9)
  {
    hide Scaled, Prod;
    Sum5(Scaled(2, f.t5, 1, g.t3), Scaled(1, f.t6, 1, g.t2), Scaled(2, f.t7, 1, g.t1),
         Scaled(1, f.t8, 1, g.t0), Scaled(2, f.t9, 19, g.t9))
  }

  function FirstLine9(f: Fe, g: Fe): (t: i64)
    requires Loose(f) && Loose(g)
    ensures Below61(t)
    ensures t == Prod(f.t0, g.t9) + Prod(f.t1, g.t8) + Prod(f.t2, g.t7) + Prod(f.t3, g.t6) + Prod(f.t4, g.t5)
  {
    hide Scaled, Prod;
    Sum5(Scaled(1, f.t0, 1, g.t9), Scaled(1, f.t1, 1, g.t8), Scaled(1, f.t2, 1, g.t7),
         Scaled(1, f.t3, 1, g.t6), Scaled(1, f.t4, 1, g.t5))
  }

  function SecondLine9(f: Fe, g: Fe): (t: i64)
    requires Loose(f) && Loose(g)
    ensures Below61(t)
    ensures t == Prod(f.t5, g.t4) + Prod(f.t6, g.t3) + Prod(f.t7, g.t2) + Prod(f.t8, g.t1) + Prod(f.t9, g.t0)
  {
    hide Scaled, Prod;
    Sum5(Scaled(1, f.t5, 1, g.t4), Scaled(1, f.t6, 1, g.t3), Scaled(1, f.t7, 1, g.t2),
         Scaled(1, f.t8, 1, g.t1), Scaled(1, f.t9, 1, g.t0))
  }

  lemma Distribute(x: int, g: Fe)
    ensures Prod(x, FeVal(g))
         == Value(Prod(x, g.t0), Prod(x, g.t1), Prod(x, g.t2), Prod(x, g.t3), Prod(x, g.t4),
                  Prod(x, g.t5), Prod(x, g.t6), Prod(x, g.t7), Prod(x, g.t8), Prod(x, g.t9))
  {
  }

  lemma DistributeLeft(f: Fe, y: int)
    ensures Prod(FeVal(f), y)
         == Value(Prod(f.t0, y), Prod(f.t1, y), Prod(f.t2, y), Prod(f.t3, y), Prod(f.t4, y),
                  Prod(f.t5, y), Prod(f.t6, y), Prod(f.t7, y), Prod(f.t8, y), Prod(f.t9, y))
  {
  }

  // How many times 2^255 the products of this half of f beyond limb 9 are worth.
  ghost function FirstExcess(f: Fe, g: Fe): int {
    (2 * Prod(f.t1, g.t9) + Prod(f.t2, g.t8) + 2 * Prod(f.t3, g.t7) + Prod(f.t4, g.t6))
    + E1 * (Prod(f.t2, g.t9) + Prod(f.t3, g.t8) + Prod(f.t4, g.t7))
    + E2 * (2 * Prod(f.t3, g.t9) + Prod(f.t4, g.t8))
    + E3 * (Prod(f.t4, g.t9))
  }

  // Folding the excess back times 19 changes the sum by a multiple of P.
  lemma FirstLines(f: Fe, g: Fe)
    requires Loose(f) && Loose(g)
    ensures Prod(f.t0, FeVal(g)) + E1 * Prod(f.t1, FeVal(g)) + E2 * Prod(f.t2, FeVal(g))
                 + E3 * Prod(f.t3, FeVal(g)) + E4 * Prod(f.t4, FeVal(g))
         == Value(FirstLine0(f, g), FirstLine1(f, g), FirstLine2(f, g), FirstLine3(f, g),
                  FirstLine4(f, g), FirstLine5(f, g), FirstLine6(f, g), FirstLine7(f, g),
                  FirstLine8(f, g), FirstLine9(f, g))
            + P * FirstExcess(f, g)
  {
    hide Prod, Scaled, Loose, FirstLine0, FirstLine1, FirstLine2, FirstLine3, FirstLine4,
         FirstLine5, FirstLine6, FirstLine7, FirstLine8, FirstLine9;
    Distribute(f.t0, g);
    Distribute(f.t1, g);
    Distribute(f.t2, g);
    Distribute(f.t3, g);
    Distribute(f.t4, g);
  }

  // How many times 2^255 the products of this half of f beyond limb 9 are worth.
  ghost function SecondExcess(f: Fe, g: Fe): int {
    (2 * Prod(f.t5, g.t5) + Prod(f.t6, g.t4) + 2 * Prod(f.t7, g.t3) + Prod(f.t8, g.t2) + 2 * Prod(f.t9, g.t1))
    + E1 * (Prod(f.t5, g.t6) + Prod(f.t6, g.t5) + Prod(f.t7, g.t4) + Prod(f.t8, g.t3) + Prod(f.t9, g.t2))
    + E2 * (2 * Prod(f.t5, g.t7) + Prod(f.t6, g.t6) + 2 * Prod(f.t7, g.t5) + Prod(f.t8, g.t4) + 2 * Prod(f.t9, g.t3))
    + E3 * (Prod(f.t5, g.t8) + Prod(f.t6, g.t7) + Prod(f.t7, g.t6) + Prod(f.t8, g.t5) + Prod(f.t9, g.t4))
    + E4 * (2 * Prod(f.t5, g.t9) + Prod(f.t6, g.t8) + 2 * Prod(f.t7, g.t7) + Prod(f.t8, g.t6) + 2 * Prod(f.t9, g.t5))
    + E5 * (Prod(f.t6, g.t9) + Prod(f.t7, g.t8) + Prod(f.t8, g.t7) + Prod(f.t9, g.t6))
    + E6 * (2 * Prod(f.t7, g.t9) + Prod(f.t8, g.t8) + 2 * Prod(f.t9, g.t7))
    + E7 * (Prod(f.t8, g.t9) + Prod(f.t9, g.t8))
    + E8 * (2 * Prod(f.t9, g.t9))
  }

  // Folding the excess back times 19 changes the sum by a multiple of P.
  lemma SecondLines(f: Fe, g: Fe)
    requires Loose(f) && Loose(g)
    ensures E5 * Prod(f.t5, FeVal(g)) + E6 * Prod(f.t6, FeVal(g)) + E7 * Prod(f.t7, FeVal(g))
                 + E8 * Prod(f.t8, FeVal(g)) + E9 * Prod(f.t9, FeVal(g))
         == Value(SecondLine0(f, g), SecondLine1(f, g), SecondLine2(f, g), SecondLine3(f, g),
                  SecondLine4(f, g), SecondLine5(f, g), SecondLine6(f, g), SecondLine7(f, g),
                  SecondLine8(f, g), SecondLine9(f, g))
            + P * SecondExcess(f, g)
  {
    hide Prod, Scaled, Loose, SecondLine0, SecondLine1, SecondLine2, SecondLine3, SecondLine4,
         SecondLine5, SecondLine6, SecondLine7, SecondLine8, SecondLine9;
    Distribute(f.t5, g);
    Distribute(f.t6, g);
    Distribute(f.t7, g);
    Distribute(f.t8, g);
    Distribute(f.t9, g);
  }

  lemma ProductIdentity(f: Fe, g: Fe)
    requires Loose(f) && Loose(g)
    ensures FeVal(f) * FeVal(g)
         == Value(FirstLine0(f, g) + SecondLine0(f, g), FirstLine1(f, g) + SecondLine1(f, g),
                  FirstLine2(f, g) + SecondLine2(f, g), FirstLine3(f, g) + SecondLine3(f, g),
                  FirstLine4(f, g) + SecondLine4(f, g), FirstLine5(f, g) + SecondLine5(f, g),
                  FirstLine6(f, g) + SecondLine6(f, g), FirstLine7(f, g) + SecondLine7(f, g),
                  FirstLine8(f, g) + SecondLine8(f, g), FirstLine9(f, g) + SecondLine9(f, g))
            + P * (FirstExcess(f, g) + SecondExcess(f, g))
  {
    assert FeVal(f) * FeVal(g) == Prod(FeVal(f), FeVal(g));
    hide Prod, Scaled, Loose, FirstLine0, FirstLine1, FirstLine2, FirstLine3, 
         FirstLine4, FirstLine5, FirstLine6, FirstLine7, FirstLine8, FirstLine9, 
         SecondLine0, SecondLine1, SecondLine2, SecondLine3, SecondLine4, 
         SecondLine5, SecondLine6, SecondLine7, SecondLine8, SecondLine9, FirstExcess, SecondExcess;
    DistributeLeft(f, FeVal(g));
    FirstLines(f, g);
    SecondLines(f, g);
  }

  method FeMul(f: Fe, g: Fe) returns (h: Fe)
    requires Loose(f) && Loose(g)
    ensures Tight(h) && Congruent(FeVal(h), FeVal(f) * FeVal(g))
  {
    ghost var wrapped;
    h, wrapped := FeCarry(FirstLine0(f, g) + SecondLine0(f, g), FirstLine1(f, g) + SecondLine1(f, g),
                          FirstLine2(f, g) + SecondLine2(f, g), FirstLine3(f, g) + SecondLine3(f, g),
                          FirstLine4(f, g) + SecondLine4(f, g), FirstLine5(f, g) + SecondLine5(f, g),
                          FirstLine6(f, g) + SecondLine6(f, g), FirstLine7(f, g) + SecondLine7(f, g),
                          FirstLine8(f, g) + SecondLine8(f, g), FirstLine9(f, g) + SecondLine9(f, g));
    ProductIdentity(f, g);
    CongruentBy(FeVal(f) * FeVal(g), FeVal(h), wrapped + FirstExcess(f, g) + SecondExcess(f, g));
  }

  // Squares: half as many products, each below 2^59.
  function Sum6(a: i64, b: i64, c: i64, d: i64, e: i64, f: i64): (r: i64)
    requires Below59(a) && Below59(b) && Below59(c) && Below59(d) && Below59(e) && Below59(f)
    ensures Below62(r) && r == a + b + c + d + e + f
  {
    a + b + c + d + e + f
  }

  lemma ProdCommutes(x: int, y: int)
    ensures Prod(x, y) == Prod(y, x)
  {
  }

  // fe_sq computes, limb for limb, what fe_mul(f, f) would.
  function SquareLimb0(f: Fe): (t: i64)
    requires Loose(f)
    ensures Below62(t)
    ensures t == FirstLine0(f, f) + SecondLine0(f, f)
  {
    hide Scaled, Prod, FirstLine0, SecondLine0;
    ProdCommutes(f.t1, f.t9); ProdCommutes(f.t2, f.t8); ProdCommutes(f.t3, f.t7);
    ProdCommutes(f.t4, f.t6);
    Sum6(Scaled(1, f.t0, 1, f.t0), Scaled(2, f.t1, 38, f.t9), Scaled(2, f.t2, 19, f.t8),
         Scaled(2, f.t3, 38, f.t7), Scaled(2, f.t4, 19, f.t6), Scaled(1, f.t5, 38, f.t5))
  }

  function SquareLimb1(f: Fe): (t: i64)
    requires Loose(f)
    ensures Below62(t)
    ensures t == FirstLine1(f, f) + SecondLine1(f, f)
  {
    hide Scaled, Prod, FirstLine1, SecondLine1;
    ProdCommutes(f.t0, f.t1); ProdCommutes(f.t2, f.t9); ProdCommutes(f.t3, f.t8);
    ProdCommutes(f.t4, f.t7); ProdCommutes(f.t5, f.t6);
    Sum6(Scaled(2, f.t0, 1, f.t1), Scaled(1, f.t2, 38, f.t9), Scaled(2, f.t3, 19, f.t8),
         Scaled(1, f.t4, 38, f.t7), Scaled(2, f.t5, 19, f.t6), 0)
  }

  function SquareLimb2(f: Fe): (t: i64)
    requires Loose(f)
    ensures Below62(t)
    ensures t == FirstLine2(f, f) + SecondLine2(f, f)
  {
    hide Scaled, Prod, FirstLine2, SecondLine2;
    ProdCommutes(f.t0, f.t2); ProdCommutes(f.t3, f.t9); ProdCommutes(f.t4, f.t8);
    ProdCommutes(f.t5, f.t7);
    Sum6(Scaled(2, f.t0, 1, f.t2), Scaled(2, f.t1, 1, f.t1), Scaled(2, f.t3, 38, f.t9),
         Scaled(2, f.t4, 19, f.t8), Scaled(2, f.t5, 38, f.t7), Scaled(1, f.t6, 19, f.t6))
  }

  function SquareLimb3(f: Fe): (t: i64)
    requires Loose(f)
    ensures Below62(t)
    ensures t == FirstLine3(f, f) + SecondLine3(f, f)
  {
    hide Scaled, Prod, FirstLine3, SecondLine3;
    ProdCommutes(f.t0, f.t3); ProdCommutes(f.t1, f.t2); ProdCommutes(f.t4, f.t9);
    ProdCommutes(f.t5, f.t8); ProdCommutes(f.t6, f.t7);
    Sum6(Scaled(2, f.t0, 1, f.t3), Scaled(2, f.t1, 1, f.t2), Scaled(1, f.t4, 38, f.t9),
         Scaled(2, f.t5, 19, f.t8), Scaled(1, f.t6, 38, f.t7), 0)
  }

  function SquareLimb4(f: Fe): (t: i64)
    requires Loose(f)
    ensures Below62(t)
    ensures t == FirstLine4(f, f) + SecondLine4(f, f)
  {
    hide Scaled, Prod, FirstLine4, SecondLine4;
    ProdCommutes(f.t0, f.t4); ProdCommutes(f.t1, f.t3); ProdCommutes(f.t5, f.t9);
    ProdCommutes(f.t6, f.t8);
    Sum6(Scaled(2, f.t0, 1, f.t4), Scaled(2, f.t1, 2, f.t3), Scaled(1, f.t2, 1, f.t2),
         Scaled(2, f.t5, 38, f.t9), Scaled(2, f.t6, 19, f.t8), Scaled(1, f.t7, 38, f.t7))
  }

  function SquareLimb5(f: Fe): (t: i64)
    requires Loose(f)
    ensures Below62(t)
    ensures t == FirstLine5(f, f) + SecondLine5(f, f)
  {
    hide Scaled, Prod, FirstLine5, SecondLine5;
    ProdCommutes(f.t0, f.t5); ProdCommutes(f.t1, f.t4); ProdCommutes(f.t2, f.t3);
    ProdCommutes(f.t6, f.t9); ProdCommutes(f.t7, f.t8);
    Sum6(Scaled(2, f.t0, 1, f.t5), Scaled(2, f.t1, 1, f.t4), Scaled(2, f.t2, 1, f.t3),
         Scaled(1, f.t6, 38, f.t9), Scaled(2, f.t7, 19, f.t8), 0)
  }

  function SquareLimb6(f: Fe): (t: i64)
    requires Loose(f)
    ensures Below62(t)
    ensures t == FirstLine6(f, f) + SecondLine6(f, f)
  {
    hide Scaled, Prod, FirstLine6, SecondLine6;
    ProdCommutes(f.t0, f.t6); ProdCommutes(f.t1, f.t5); ProdCommutes(f.t2, f.t4);
    ProdCommutes(f.t7, f.t9);
    Sum6(Scaled(2, f.t0, 1, f.t6), Scaled(2, f.t1, 2, f.t5), Scaled(2, f.t2, 1, f.t4),
         Scaled(2, f.t3, 1, f.t3), Scaled(2, f.t7, 38, f.t9), Scaled(1, f.t8, 19, f.t8))
  }

  function SquareLimb7(f: Fe): (t: i64)
    requires Loose(f)
    ensures Below62(t)
    ensures t == FirstLine7(f, f) + SecondLine7(f, f)
  {
    hide Scaled, Prod, FirstLine7, SecondLine7;
    ProdCommutes(f.t0, f.t7); ProdCommutes(f.t1, f.t6); ProdCommutes(f.t2, f.t5);
    ProdCommutes(f.t3, f.t4); ProdCommutes(f.t8, f.t9);
    Sum6(Scaled(2, f.t0, 1, f.t7), Scaled(2, f.t1, 1, f.t6), Scaled(2, f.t2, 1, f.t5),
         Scaled(2, f.t3, 1, f.t4), Scaled(1, f.t8, 38, f.t9), 0)
  }

  function SquareLimb8(f: Fe): (t: i64)
    requires Loose(f)
    ensures Below62(t)
    ensures t == FirstLine8(f, f) + SecondLine8(f, f)
  {
    hide Scaled, Prod, FirstLine8, SecondLine8;
    ProdCommutes(f.t0, f.t8); ProdCommutes(f.t1, f.t7); ProdCommutes(f.t2, f.t6);
    ProdCommutes(f.t3, f.t5);
    Sum6(Scaled(2, f.t0, 1, f.t8), Scaled(2, f.t1, 2, f.t7), Scaled(2, f.t2, 1, f.t6),
         Scaled(2, f.t3, 2, f.t5), Scaled(1, f.t4, 1, f.t4), Scaled(1, f.t9, 38, f.t9))
  }

  function SquareLimb9(f: Fe): (t: i64)
    requires Loose(f)
    ensures Below62(t)
    ensures t == FirstLine9(f, f) + SecondLine9(f, f)
  {
    hide Scaled, Prod, FirstLine9, SecondLine9;
    ProdCommutes(f.t0, f.t9); ProdCommutes(f.t1, f.t8); ProdCommutes(f.t2, f.t7);
    ProdCommutes(f.t3, f.t6); ProdCommutes(f.t4, f.t5);
    Sum6(Scaled(2, f.t0, 1, f.t9), Scaled(2, f.t1, 1, f.t8), Scaled(2, f.t2, 1, f.t7),
         Scaled(2, f.t3, 1, f.t6), Scaled(1, f.t4, 2, f.t5), 0)
  }

  method FeSq(f: Fe) returns (h: Fe)
    requires Loose(f)
    ensures Tight(h) && Congruent(FeVal(h), FeVal(f) * FeVal(f))
  {
    ghost var wrapped;
    h, wrapped := FeCarry(SquareLimb0(f), SquareLimb1(f), SquareLimb2(f), SquareLimb3(f), SquareLimb4(f),
                          SquareLimb5(f), SquareLimb6(f), SquareLimb7(f), SquareLimb8(f), SquareLimb9(f));
    hide Prod, Scaled, Loose, Value, Congruent;
    ProductIdentity(f, f);
    CongruentBy(FeVal(f) * FeVal(f), FeVal(h), wrapped + FirstExcess(f, f) + SecondExcess(f, f));
  }

  // Multiplication by a small constant. The bound on g is its type.
  method FeMulSmall(f: Fe, g: i32) returns (h: Fe)
    requires Loose(f)
    ensures Tight(h) && Congruent(FeVal(h), FeVal(f) * g)
  {
    hide Prod;
    ghost var wrapped;
    h, wrapped := FeCarry(Wide(f.t0, g), Wide(f.t1, g), Wide(f.t2, g), Wide(f.t3, g), Wide(f.t4, g),
                          Wide(f.t5, g), Wide(f.t6, g), Wide(f.t7, g), Wide(f.t8, g), Wide(f.t9, g));
    DistributeLeft(f, g);
    ProdIs(FeVal(f), g);
    CongruentBy(FeVal(f) * g, FeVal(h), wrapped);
  }

  lemma ProdIs(x: int, y: int)
    ensures Prod(x, y) == x * y
  {
  }

  // One limb times a 32-bit factor, in 64 bits.
  function Wide(x: i32, y: i32): (r: i64)
    requires -110729625 <= x <= 110729625
    ensures Below62(r) && r == Prod(x, y)
  {
    MulBound(x, y, 110729625, 0x8000_0000);
    x * y
  }

  // fe_add, fe_sub and fe_neg: limb by limb, without carrying. Two tight
  // elements, or a tight one and a sum of two, are safe to combine.
  function FeAdd(f: Fe, g: Fe): (h: Fe)
    requires Loose(f) && Loose(g)
    ensures FeVal(h) == FeVal(f) + FeVal(g)
    ensures Tight(f) && Tight(g) ==> Sum2(h)
    ensures Tight(f) && Sum2(g) ==> Loose(h)
    ensures Sum2(f) && Tight(g) ==> Loose(h)
  {
    Fe(f.t0 + g.t0, f.t1 + g.t1, f.t2 + g.t2, f.t3 + g.t3, f.t4 + g.t4,
       f.t5 + g.t5, f.t6 + g.t6, f.t7 + g.t7, f.t8 + g.t8, f.t9 + g.t9)
  }

  function FeSub(f: Fe, g: Fe): (h: Fe)
    requires Loose(f) && Loose(g)
    ensures FeVal(h) == FeVal(f) - FeVal(g)
    ensures Tight(f) && Tight(g) ==> Sum2(h)
    ensures Tight(f) && Sum2(g) ==> Loose(h)
    ensures Sum2(f) && Tight(g) ==> Loose(h)
  {
    Fe(f.t0 - g.t0, f.t1 - g.t1, f.t2 - g.t2, f.t3 - g.t3, f.t4 - g.t4,
       f.t5 - g.t5, f.t6 - g.t6, f.t7 - g.t7, f.t8 - g.t8, f.t9 - g.t9)
  }

  function FeNeg(f: Fe): (h: Fe)
    requires Loose(f)
    ensures FeVal(h) == -FeVal(f)
    ensures Loose(h) && (Sum2(f) ==> Sum2(h)) && (Tight(f) ==> Tight(h))
  {
    Fe(-f.t0, -f.t1, -f.t2, -f.t3, -f.t4, -f.t5, -f.t6, -f.t7, -f.t8, -f.t9)
  }
}
