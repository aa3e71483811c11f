// Bech32 encoding (BIP-173, "Bech32" and "Checksum") into an uppercase string:
// src/proto/bech32.c. The 90-character limit of BIP-173 is not enforced.
module Bech32 {
  import opened Machine
  import opened Options
  import opened Radix
  import opened BigEndian

  // ---- The checksum ----

  const GEN0: bv32 := 0x3b6a57b2
  const GEN1: bv32 := 0x26508e6d
  const GEN2: bv32 := 0x1ea119fa
  const GEN3: bv32 := 0x3d4233dd
  const GEN4: bv32 := 0x2a1462b3

  function Xor(a: bv32, b: bv32): bv32 {
    a ^ b
  }

  // (top >> i) & 1
  function TopBit(top: bv32, i: nat): bv32
    requires i < 5
  {
    match i
    case 0 => top & 1
    case 1 => (top >> 1) & 1
    case 2 => (top >> 2) & 1
    case 3 => (top >> 3) & 1
    case 4 => (top >> 4) & 1
  }

  function Term(top: bv32, i: nat, g: bv32): bv32
    requires i < 5
  {
    if TopBit(top, i) == 1 then g else 0
  }

  function Feedback(top: bv32): bv32 {
    Xor(Xor(Xor(Xor(Term(top, 0, GEN0), Term(top, 1, GEN1)), Term(top, 2, GEN2)), Term(top, 3, GEN3)),
        Term(top, 4, GEN4))
  }

  function Shifted(chk: bv32): bv32 {
    (chk & 0x1ffffff) << 5
  }

  function PolymodStep(chk: bv32, value: bv32): bv32 {
    Xor(Xor(Shifted(chk), value), Feedback(chk >> 25))
  }

  function Polymod(chk: bv32, values: seq<bv32>): bv32 {
    if values == [] then chk
    else PolymodStep(Polymod(chk, values[..|values| - 1]), values[|values| - 1])
  }

  lemma BitOf(x: bv32, y: bv32, i: nat)
    requires i < 5
    ensures TopBit(Xor(x, y), i) == Xor(TopBit(x, i), TopBit(y, i)) && TopBit(x, i) <= 1 && TopBit(y, i) <= 1
  {
    match i {
      case 0 => case 1 => case 2 => case 3 => case 4 =>
    }
  }

  lemma SelectLinear(p: bv32, q: bv32, g: bv32)
    requires p <= 1 && q <= 1
    ensures (if Xor(p, q) == 1 then g else 0) == Xor(if p == 1 then g else 0, if q == 1 then g else 0)
  {
    if p == 0 {
      assert p ^ q == q;
    } else if q == 0 {
      assert p ^ q == p;
    } else {
      assert p ^ q == 0 && g ^ g == 0;
    }
  }

  lemma TermLinear(x: bv32, y: bv32, i: nat, g: bv32)
    requires i < 5
    ensures Term(Xor(x, y), i, g) == Xor(Term(x, i, g), Term(y, i, g))
  {
    hide TopBit, Xor;
    BitOf(x, y, i);
    SelectLinear(TopBit(x, i), TopBit(y, i), g);
  }

  lemma XorAssoc(a: bv32, b: bv32, c: bv32)
    ensures Xor(Xor(a, b), c) == Xor(a, Xor(b, c))
  {
    assert (a ^ b) ^ c == a ^ (b ^ c);
  }

  lemma XorComm(a: bv32, b: bv32)
    ensures Xor(a, b) == Xor(b, a)
  {
  }

  lemma Interchange(a: bv32, b: bv32, c: bv32, d: bv32)
    ensures Xor(Xor(a, b), Xor(c, d)) == Xor(Xor(a, c), Xor(b, d))
  {
    hide Xor;
    XorAssoc(a, b, Xor(c, d));
    XorAssoc(b, c, d);
    XorComm(b, c);
    XorAssoc(c, b, d);
    XorAssoc(a, c, Xor(b, d));
  }

  lemma ShiftLinear(a: bv32, b: bv32)
    ensures Shifted(Xor(a, b)) == Xor(Shifted(a), Shifted(b))
    ensures Xor(a, b) >> 25 == Xor(a >> 25, b >> 25)
  {
  }

  lemma FeedbackLinear(x: bv32, y: bv32)
    ensures Feedback(Xor(x, y)) == Xor(Feedback(x), Feedback(y))
  {
    TermLinear(x, y, 0, GEN0);
    TermLinear(x, y, 1, GEN1);
    TermLinear(x, y, 2, GEN2);
    TermLinear(x, y, 3, GEN3);
    TermLinear(x, y, 4, GEN4);
    hide Term, Xor;
    var x0, x1, x2, x3, x4 := Term(x, 0, GEN0), Term(x, 1, GEN1), Term(x, 2, GEN2), Term(x, 3, GEN3), Term(x, 4, GEN4);
    var y0, y1, y2, y3, y4 := Term(y, 0, GEN0), Term(y, 1, GEN1), Term(y, 2, GEN2), Term(y, 3, GEN3), Term(y, 4, GEN4);
    Interchange(x0, y0, x1, y1);
    Interchange(Xor(x0, x1), Xor(y0, y1), x2, y2);
    Interchange(Xor(Xor(x0, x1), x2), Xor(Xor(y0, y1), y2), x3, y3);
    Interchange(Xor(Xor(Xor(x0, x1), x2), x3), Xor(Xor(Xor(y0, y1), y2), y3), x4, y4);
  }

  // One step is linear over exclusive or.
  lemma StepLinear(a: bv32, b: bv32, u: bv32, v: bv32)
    ensures PolymodStep(Xor(a, b), Xor(u, v)) == Xor(PolymodStep(a, u), PolymodStep(b, v))
  {
    ShiftLinear(a, b);
    FeedbackLinear(a >> 25, b >> 25);
    hide Feedback, Xor, Shifted;
    Interchange(Shifted(a), Shifted(b), u, v);
    Interchange(Xor(Shifted(a), u), Xor(Shifted(b), v), Feedback(a >> 25), Feedback(b >> 25));
  }

  function SixSteps(s: bv32, c0: bv32, c1: bv32, c2: bv32, c3: bv32, c4: bv32, c5: bv32): bv32 {
    PolymodStep(PolymodStep(PolymodStep(PolymodStep(PolymodStep(PolymodStep(s, c0), c1), c2), c3), c4), c5)
  }

  // Started from zero, six 5-bit digits just spell out a 30-bit number.
  lemma SixDigits(chk: bv32)
    requires chk < 0x4000_0000
    ensures SixSteps(0, (chk >> 25) & 31, (chk >> 20) & 31, (chk >> 15) & 31, (chk >> 10) & 31, (chk >> 5) & 31,
                     chk & 31) == chk
  {
  }

  lemma SixLinear(s: bv32, c0: bv32, c1: bv32, c2: bv32, c3: bv32, c4: bv32, c5: bv32)
    ensures SixSteps(s, c0, c1, c2, c3, c4, c5)
         == Xor(SixSteps(s, 0, 0, 0, 0, 0, 0), SixSteps(0, c0, c1, c2, c3, c4, c5))
  {
    hide PolymodStep, Xor;
    XorZero(s);
    StepPair(s, 0, 0, c0);
    var a1, b1 := PolymodStep(s, 0), PolymodStep(0, c0);
    StepPair(a1, b1, 0, c1);
    var a2, b2 := PolymodStep(a1, 0), PolymodStep(b1, c1);
    StepPair(a2, b2, 0, c2);
    var a3, b3 := PolymodStep(a2, 0), PolymodStep(b2, c2);
    StepPair(a3, b3, 0, c3);
    var a4, b4 := PolymodStep(a3, 0), PolymodStep(b3, c3);
    StepPair(a4, b4, 0, c4);
    var a5, b5 := PolymodStep(a4, 0), PolymodStep(b4, c4);
    StepPair(a5, b5, 0, c5);
  }

  lemma StepPair(a: bv32, b: bv32, z: bv32, c: bv32)
    requires z == 0
    ensures PolymodStep(Xor(a, b), c) == Xor(PolymodStep(a, 0), PolymodStep(b, c))
  {
    StepLinear(a, b, 0, c);
    XorZero(c);
    hide PolymodStep, Xor;
  }

  lemma XorZero(s: bv32)
    ensures Xor(s, 0) == s && Xor(0, s) == s
  {
  }

  lemma StepSmall(a: bv32, u: bv32)
    requires u < 32
    ensures PolymodStep(a, u) < 0x4000_0000
  {
  }

  // Five bits of the checksum, the topmost first: a shift by 5 * (5 - i).
  function Digit(chk: bv32, i: nat): (d: bv32)
    requires i < 6
    ensures d < 32
  {
    match i
    case 0 => (chk >> 25) & 31
    case 1 => (chk >> 20) & 31
    case 2 => (chk >> 15) & 31
    case 3 => (chk >> 10) & 31
    case 4 => (chk >> 5) & 31
    case 5 => chk & 31
  }

  // Values that a character stands for.
  predicate FiveBits(values: seq<bv32>) {
    forall i | 0 <= i < |values| :: values[i] < 32
  }

  function ChecksumDigits(chk: bv32): (digits: seq<bv32>)
    ensures |digits| == 6 && FiveBits(digits)
  {
    [Digit(chk, 0), Digit(chk, 1), Digit(chk, 2), Digit(chk, 3), Digit(chk, 4), Digit(chk, 5)]
  }

  const SIX_ZEROS: seq<bv32> := [0, 0, 0, 0, 0, 0]

  function Checksum(values: seq<bv32>): bv32 {
    Xor(Polymod(1, values + SIX_ZEROS), 1)
  }

  lemma {:induction false} PolymodConcat(chk: bv32, a: seq<bv32>, b: seq<bv32>)
    ensures Polymod(chk, a + b) == Polymod(Polymod(chk, a), b)
  {
    if b == [] {
      assert a + b == a;
    } else {
      assert (a + b)[..|a + b| - 1] == a + b[..|b| - 1];
      PolymodConcat(chk, a, b[..|b| - 1]);
      hide PolymodStep;
    }
  }

  lemma PolymodSnoc(s: bv32, values: seq<bv32>, v: bv32)
    ensures Polymod(s, values + [v]) == PolymodStep(Polymod(s, values), v) && Polymod(s, []) == s
  {
    assert (values + [v])[..|values|] == values;
    hide PolymodStep;
  }

  lemma PolymodSix(s: bv32, c0: bv32, c1: bv32, c2: bv32, c3: bv32, c4: bv32, c5: bv32)
    ensures Polymod(s, [c0, c1, c2, c3, c4, c5]) == SixSteps(s, c0, c1, c2, c3, c4, c5)
  {
    hide PolymodStep, Polymod;
    PolymodSnoc(s, [], c0);
    PolymodSnoc(s, [c0], c1);
    PolymodSnoc(s, [c0, c1], c2);
    PolymodSnoc(s, [c0, c1, c2], c3);
    PolymodSnoc(s, [c0, c1, c2, c3], c4);
    PolymodSnoc(s, [c0, c1, c2, c3, c4], c5);
    assert [] + [c0] == [c0] && [c0] + [c1] == [c0, c1] && [c0, c1] + [c2] == [c0, c1, c2];
    assert [c0, c1, c2] + [c3] == [c0, c1, c2, c3] && [c0, c1, c2, c3] + [c4] == [c0, c1, c2, c3, c4];
    assert [c0, c1, c2, c3, c4] + [c5] == [c0, c1, c2, c3, c4, c5];
  }

  // Appending the checksum digits makes the polynomial remainder one, whatever
  // came before: the equation every reader checks.
  lemma ChecksumEquation(values: seq<bv32>)
    ensures Polymod(1, values + ChecksumDigits(Checksum(values))) == 1
  {
    hide PolymodStep, SixSteps, Polymod, Xor, Digit;
    var s, chk := Polymod(1, values), Checksum(values);
    PolymodConcat(1, values, SIX_ZEROS);
    PolymodSix(s, 0, 0, 0, 0, 0, 0);
    var zero := SixSteps(s, 0, 0, 0, 0, 0, 0);
    ChecksumSmall(s);
    DigitsCancel(values, zero, chk);
  }

  lemma DigitsCancel(values: seq<bv32>, zero: bv32, chk: bv32)
    requires zero == SixSteps(Polymod(1, values), 0, 0, 0, 0, 0, 0) && chk == Xor(zero, 1) && chk < 0x4000_0000
    ensures Polymod(1, values + ChecksumDigits(chk)) == 1
  {
    SixDigits(chk);
    DigitsAre(chk);
    hide PolymodStep, SixSteps, Polymod, Xor, Digit;
    var s := Polymod(1, values);
    var c0, c1, c2 := Digit(chk, 0), Digit(chk, 1), Digit(chk, 2);
    var c3, c4, c5 := Digit(chk, 3), Digit(chk, 4), Digit(chk, 5);
    PolymodConcat(1, values, ChecksumDigits(chk));
    PolymodSix(s, c0, c1, c2, c3, c4, c5);
    SixLinear(s, c0, c1, c2, c3, c4, c5);
    XorOut(zero);
  }

  lemma DigitsAre(chk: bv32)
    ensures Digit(chk, 0) == (chk >> 25) & 31 && Digit(chk, 1) == (chk >> 20) & 31
    ensures Digit(chk, 2) == (chk >> 15) & 31 && Digit(chk, 3) == (chk >> 10) & 31
    ensures Digit(chk, 4) == (chk >> 5) & 31 && Digit(chk, 5) == chk & 31
  {
  }

  lemma ChecksumSmall(s: bv32)
    ensures Xor(SixSteps(s, 0, 0, 0, 0, 0, 0), 1) < 0x4000_0000
  {
    var last := PolymodStep(PolymodStep(PolymodStep(PolymodStep(PolymodStep(s, 0), 0), 0), 0), 0);
    StepSmall(last, 0);
    hide PolymodStep;
    XorOneSmall(PolymodStep(last, 0));
  }

  lemma XorOneSmall(x: bv32)
    requires x < 0x4000_0000
    ensures Xor(x, 1) < 0x4000_0000
  {
  }

  lemma XorOut(x: bv32)
    ensures Xor(x, Xor(x, 1)) == 1
  {
  }

  // ---- The generator of BIP-173 ----

  // GF(32) as polynomials over two elements, modulo x^5 + x^3 + 1.
  function TimesX(a: bv32): bv32 {
    if a & 16 == 0 then a << 1 else (a << 1) ^ 0x29
  }

  function TimesXs(a: bv32, i: nat): bv32 {
    if i == 0 then a else TimesX(TimesXs(a, i - 1))
  }

  // Shift and add: the bits of a select multiples of b by powers of x.
  function GfTimes(a: bv32, b: bv32): bv32 {
    Xor(Xor(Xor(Xor(Term(a, 0, TimesXs(b, 0)), Term(a, 1, TimesXs(b, 1))), Term(a, 2, TimesXs(b, 2))),
            Term(a, 3, TimesXs(b, 3))), Term(a, 4, TimesXs(b, 4)))
  }

  // A remainder is a polynomial of degree 5 over GF(32): its coefficients.
  function Coefficient(chk: bv32, j: nat): bv32
    requires j < 6
  {
    match j
    case 0 => chk & 31
    case 1 => (chk >> 5) & 31
    case 2 => (chk >> 10) & 31
    case 3 => (chk >> 15) & 31
    case 4 => (chk >> 20) & 31
    case 5 => (chk >> 25) & 31
  }

  // The generator is x^6 + {29}x^5 + {22}x^4 + {20}x^3 + {21}x^2 + {29}x + {18}.
  function Generator(j: nat): bv32
    requires j < 6
  {
    match j
    case 0 => 18 case 1 => 29 case 2 => 21 case 3 => 20 case 4 => 22 case 5 => 29
  }

  lemma PowersOfX(b: bv32)
    ensures TimesXs(b, 0) == b && TimesXs(b, 1) == TimesX(b) && TimesXs(b, 2) == TimesX(TimesX(b))
    ensures TimesXs(b, 3) == TimesX(TimesX(TimesX(b))) && TimesXs(b, 4) == TimesX(TimesX(TimesX(TimesX(b))))
  {
    hide TimesX;
    assert TimesXs(b, 1) == TimesX(TimesXs(b, 0));
    assert TimesXs(b, 2) == TimesX(TimesXs(b, 1));
    assert TimesXs(b, 3) == TimesX(TimesXs(b, 2));
    assert TimesXs(b, 4) == TimesX(TimesXs(b, 3));
  }

  // The five constants are the generator, but for its leading term, times the
  // powers of x.
  lemma ConstantsAre(j: nat)
    requires j < 6
    ensures Coefficient(GEN0, j) == TimesXs(Generator(j), 0) && Coefficient(GEN1, j) == TimesXs(Generator(j), 1)
    ensures Coefficient(GEN2, j) == TimesXs(Generator(j), 2) && Coefficient(GEN3, j) == TimesXs(Generator(j), 3)
    ensures Coefficient(GEN4, j) == TimesXs(Generator(j), 4)
  {
    PowersOfX(Generator(j));
    hide TimesXs;
    match j {
      case 0 => case 1 => case 2 => case 3 => case 4 => case 5 =>
    }
  }

  lemma CoefficientOfTerm(top: bv32, i: nat, g: bv32, j: nat)
    requires i < 5 && j < 6
    ensures Coefficient(Term(top, i, g), j) == Term(top, i, Coefficient(g, j))
  {
    hide TopBit;
    assert Coefficient(0, j) == 0;
  }

  lemma FeedbackSmall(top: bv32)
    ensures Feedback(top) < 0x4000_0000
  {
  }

  lemma FeedbackIs(top: bv32, j: nat)
    requires j < 6
    ensures Coefficient(Feedback(top), j) == GfTimes(top, Generator(j))
  {
    hide Term, Xor, Coefficient, Generator, TimesXs;
    ConstantsAre(j);
    var t0, t1, t2 := Term(top, 0, GEN0), Term(top, 1, GEN1), Term(top, 2, GEN2);
    var t3, t4 := Term(top, 3, GEN3), Term(top, 4, GEN4);
    CoefficientOfTerm(top, 0, GEN0, j);
    CoefficientOfTerm(top, 1, GEN1, j);
    CoefficientOfTerm(top, 2, GEN2, j);
    CoefficientOfTerm(top, 3, GEN3, j);
    CoefficientOfTerm(top, 4, GEN4, j);
    CoefficientAdds(Xor(Xor(Xor(t0, t1), t2), t3), t4, j);
    CoefficientAdds(Xor(Xor(t0, t1), t2), t3, j);
    CoefficientAdds(Xor(t0, t1), t2, j);
    CoefficientAdds(t0, t1, j);
  }

  lemma CoefficientAdds(a: bv32, b: bv32, j: nat)
    requires j < 6
    ensures Coefficient(Xor(a, b), j) == Xor(Coefficient(a, j), Coefficient(b, j))
  {
    match j {
      case 0 => case 1 => case 2 => case 3 => case 4 => case 5 =>
    }
  }

  lemma CoefficientShifts(chk: bv32, j: nat)
    requires j < 6 && chk < 0x4000_0000
    ensures Coefficient(Shifted(chk), j) == if j == 0 then 0 else Coefficient(chk, j - 1)
  {
    match j {
      case 0 => case 1 => case 2 => case 3 => case 4 => case 5 =>
    }
  }

  lemma CoefficientOfValue(v: bv32, j: nat)
    requires j < 6 && v < 32
    ensures Coefficient(v, j) == if j == 0 then v else 0
  {
    match j {
      case 0 => case 1 => case 2 => case 3 => case 4 => case 5 =>
    }
  }

  lemma SmallSum(a: bv32, b: bv32)
    requires a < 0x4000_0000 && b < 0x4000_0000
    ensures Xor(a, b) < 0x4000_0000
  {
  }

  lemma ShiftedSmall(chk: bv32)
    ensures Shifted(chk) < 0x4000_0000
  {
  }

  lemma TopIs(chk: bv32)
    requires chk < 0x4000_0000
    ensures chk >> 25 < 32 && chk >> 25 == Coefficient(chk, 5)
  {
  }

  lemma StepOf(chk: bv32, v: bv32)
    requires chk < 0x4000_0000
    ensures PolymodStep(chk, v) == Xor(Xor(Shifted(chk), v), Feedback(Coefficient(chk, 5))) && Coefficient(chk, 5) < 32
  {
    TopIs(chk);
    hide Coefficient, Feedback, Xor, Shifted;
  }

  lemma StepCoefficient(chk: bv32, v: bv32, j: nat)
    requires chk < 0x4000_0000 && v < 32 && j < 6
    ensures Coefficient(PolymodStep(chk, v), j)
         == Xor(if j == 0 then v else Coefficient(chk, j - 1), GfTimes(Coefficient(chk, 5), Generator(j)))
  {
    hide Feedback, GfTimes, Shifted, Xor, Coefficient, PolymodStep, Generator;
    var f := Feedback(Coefficient(chk, 5));
    StepOf(chk, v);
    CoefficientAdds(Xor(Shifted(chk), v), f, j);
    CoefficientAdds(Shifted(chk), v, j);
    CoefficientShifts(chk, j);
    CoefficientOfValue(v, j);
    XorZero(if j == 0 then v else Coefficient(chk, j - 1));
    FeedbackIs(Coefficient(chk, 5), j);
  }

  // A step multiplies by x, adds the value, and takes the remainder.
  lemma StepIsRemainder(chk: bv32, v: bv32)
    requires chk < 0x4000_0000 && v < 32
    ensures var next, top := PolymodStep(chk, v), Coefficient(chk, 5);
            && next < 0x4000_0000
            && Coefficient(next, 0) == Xor(v, GfTimes(top, 18))
            && Coefficient(next, 1) == Xor(Coefficient(chk, 0), GfTimes(top, 29))
            && Coefficient(next, 2) == Xor(Coefficient(chk, 1), GfTimes(top, 21))
            && Coefficient(next, 3) == Xor(Coefficient(chk, 2), GfTimes(top, 20))
            && Coefficient(next, 4) == Xor(Coefficient(chk, 3), GfTimes(top, 22))
            && Coefficient(next, 5) == Xor(Coefficient(chk, 4), GfTimes(top, 29))
  {
    hide Feedback, GfTimes, Shifted, Xor, Coefficient, PolymodStep;
    StepOf(chk, v);
    ShiftedSmall(chk);
    SmallSum(Shifted(chk), v);
    FeedbackSmall(Coefficient(chk, 5));
    SmallSum(Xor(Shifted(chk), v), Feedback(Coefficient(chk, 5)));
    StepCoefficient(chk, v, 0);
    StepCoefficient(chk, v, 1);
    StepCoefficient(chk, v, 2);
    StepCoefficient(chk, v, 3);
    StepCoefficient(chk, v, 4);
    StepCoefficient(chk, v, 5);
  }

  // So every remainder is one: 30 bits, six coefficients.
  lemma {:induction false} PolymodIsSmall(values: seq<bv32>)
    requires FiveBits(values)
    ensures Polymod(1, values) < 0x4000_0000
  {
    hide PolymodStep;
    if values != [] {
      var k := |values| - 1;
      PolymodIsSmall(values[..k]);
      StepIsRemainder(Polymod(1, values[..k]), values[k]);
    }
  }

  // ---- Eight bits to five ----

  function GroupCount(n: nat): nat {
    (n * 8 + 4) / 5
  }

  ghost function Padding(n: nat): nat {
    5 * GroupCount(n) - 8 * n
  }

  // The groups spell the same number as the bytes, with zeros on the right.
  ghost predicate Regrouped(groups: seq<int>, data: seq<u8>) {
    && Digits(32, groups) && |groups| == GroupCount(|data|)
    && BE(32, groups) == BE(TWO8, data) * Pow(2, Padding(|data|))
  }

  lemma PaddingSmall(n: nat)
    ensures 0 <= Padding(n) < 5 && 5 * GroupCount(n) == 8 * n + Padding(n)
  {
  }

  // groups_t. The accumulator is 32 bits wide and only ever shifted left, so
  // from the fifth byte on its top falls off.
  class GroupCursor {
    const data: seq<u8>
    var i: nat
    var acc: u32
    var bits: nat
    var flushed: bool
    ghost var emitted: seq<int>

    constructor (data: seq<u8>)
      ensures this.data == data && Valid() && emitted == []
    {
      this.data := data;
      i, acc, bits, flushed, emitted := 0, 0, 0, false, [];
      new;
      assert data[..0] == [] && Pow(2, 0) == 1;
    }

    ghost predicate Valid()
      reads this
    {
      && i <= |data| && bits <= 12 && Digits(32, emitted)
      && if flushed then bits == 0 && i == |data| && Regrouped(emitted, data)
         else
           && 5 * |emitted| + bits == 8 * i && acc == BE(TWO8, data[..i]) % TWO32
           && BE(32, emitted) == BE(TWO8, data[..i]) / Pow2(bits)
    }

    // groups_next.
    method Next() returns (ok: bool, v: u8)
      requires Valid()
      modifies this
      ensures Valid() && (ok ==> v < 32 && emitted == old(emitted) + [v as int])
      ensures !ok ==> emitted == old(emitted) && Regrouped(emitted, data)
      ensures ok ==> |emitted| <= GroupCount(|data|)
    {
      v := 0;
      if !flushed {
        Fill();
      }
      if bits >= 5 {
        v := TakeFive();
        return true, v;
      }
      if bits > 0 && !flushed {
        v := Flush();
        return true, v;
      }
      if !flushed {
        AllRead();
      }
      ok := false;
    }

    // The while loop that tops up the accumulator.
    method Fill()
      requires Valid() && !flushed
      modifies this`i, this`acc, this`bits
      ensures Valid() && (bits >= 5 || i == |data|)
    {
      while bits < 5 && i < |data|
        invariant Valid()
        decreases |data| - i
      {
        AddByte(data, i, acc, bits, emitted);
        acc := (acc * 0x100) % TWO32 + data[i];
        i := i + 1;
        bits := bits + 8;
      }
    }

    method TakeFive() returns (v: u8)
      requires Valid() && !flushed && bits >= 5
      modifies this`bits, this`emitted
      ensures Valid() && v < 32 && emitted == old(emitted) + [v as int] && |emitted| <= GroupCount(|data|)
    {
      bits := bits - 5;
      v := acc / Pow2(bits) % 32;
      TopFive(BE(TWO8, data[..i]), acc, bits, emitted, v);
      emitted := emitted + [v as int];
    }

    method Flush() returns (v: u8)
      requires Valid() && !flushed && 0 < bits < 5 && i == |data|
      modifies this`bits, this`flushed, this`emitted
      ensures Valid() && v < 32 && emitted == old(emitted) + [v as int] && |emitted| <= GroupCount(|data|)
    {
      v := acc * Pow2(5 - bits) % TWO32 % 32;
      assert data[..i] == data;
      LastFew(BE(TWO8, data), acc, bits, emitted, v, |data|);
      emitted := emitted + [v as int];
      bits := 0;
      flushed := true;
    }

    lemma AllRead()
      requires Valid() && !flushed && bits == 0 && i == |data|
      ensures Regrouped(emitted, data)
    {
      assert data[..i] == data;
      PowZero();
    }
  }

  lemma PowZero()
    ensures Pow(2, 0) == 1 && Pow2(0) == 1
  {
  }

  // Shift amounts up to 12, without recursion.
  function Pow2(k: nat): (p: int)
    requires k <= 12
    ensures p > 0
  {
    match k
    case 0 => 1 case 1 => 2 case 2 => 4 case 3 => 8 case 4 => 16 case 5 => 32 case 6 => 64
    case 7 => 128 case 8 => 256 case 9 => 512 case 10 => 1024 case 11 => 2048 case 12 => 4096
  }

  lemma Pow2Is(k: nat)
    requires k <= 4
    ensures Pow2(k) == Pow(2, k)
  {
    assert Pow(2, 0) == 1;
    assert Pow(2, 1) == 2;
    assert Pow(2, 2) == 4;
    assert Pow(2, 3) == 8;
    assert Pow(2, 4) == 16;
  }

  lemma AddByte(data: seq<u8>, i: nat, acc: u32, bits: nat, emitted: seq<int>)
    requires i < |data| && bits < 5 && acc == BE(TWO8, data[..i]) % TWO32
    requires BE(32, emitted) == BE(TWO8, data[..i]) / Pow2(bits)
    ensures (acc * 0x100) % TWO32 + data[i] == BE(TWO8, data[..i + 1]) % TWO32
    ensures BE(32, emitted) == BE(TWO8, data[..i + 1]) / Pow2(bits + 8)
    ensures (acc * 0x100) % TWO32 + data[i] < TWO32
  {
    var n, b := BE(TWO8, data[..i]), data[i];
    assert data[..i + 1] == data[..i] + [b];
    BESnoc(TWO8, data[..i], b);
    ByteOntoWord(n, acc, b);
    ByteOntoGroups(n, bits, b);
  }

  lemma ByteOntoWord(n: int, acc: int, b: int)
    requires acc == n % TWO32 && 0 <= b < 0x100
    ensures (acc * 0x100) % TWO32 + b == (TWO8 * n + b) % TWO32 < TWO32
  {
    var q, low := acc / 0x100_0000, acc % 0x100_0000;
    assert acc * 0x100 == TWO32 * q + 0x100 * low;
    Quotient(acc * 0x100, TWO32, q, 0x100 * low);
    Quotient(TWO8 * n + b, TWO32, TWO8 * (n / TWO32) + q, 0x100 * low + b);
  }

  lemma ByteOntoGroups(n: int, bits: nat, b: int)
    requires bits < 5 && 0 <= b < 0x100
    ensures (TWO8 * n + b) / Pow2(bits + 8) == n / Pow2(bits)
  {
    var p := Pow2(bits);
    assert Pow2(bits + 8) == 0x100 * p;
    var q, r := n / p, n % p;
    assert TWO8 * n + b == (0x100 * p) * q + (0x100 * r + b) by {
      MulAssoc(0x100, p, q);
    }
    Quotient(TWO8 * n + b, 0x100 * p, q, 0x100 * r + b);
  }

  // The next group, read from the 32 bits that are left of the number, is the
  // right one.
  lemma TopFive(n: int, acc: int, bits: nat, emitted: seq<int>, v: int)
    requires bits <= 7 && acc == n % TWO32 && BE(32, emitted) == n / Pow2(bits + 5)
    requires v == acc / Pow2(bits) % 32
    ensures BE(32, emitted + [v]) == n / Pow2(bits)
  {
    BESnoc(32, emitted, v);
    var p := Pow2(bits);
    assert Pow2(bits + 5) == 32 * p;
    var m := n / p;
    DivideTwice(n, p);
    WordSuffices(n, acc, bits);
  }

  lemma DivideTwice(n: int, p: int)
    requires p > 0
    ensures n / (32 * p) == (n / p) / 32
  {
    var m := n / p;
    var q, r := m / 32, m % 32;
    assert n == (32 * p) * q + (p * r + n % p) by {
      assert n == p * (32 * q + r) + n % p;
      assert p * (32 * q + r) == (32 * p) * q + p * r;
    }
    MulMonotone(p, 0, r);
    MulMonotone(p, r, 31);
    Quotient(n, 32 * p, q, p * r + n % p);
  }

  lemma WordSuffices(n: int, acc: int, bits: nat)
    requires bits <= 7 && acc == n % TWO32
    ensures acc / Pow2(bits) % 32 == n / Pow2(bits) % 32
  {
    var p := Pow2(bits);
    var q := n / TWO32;
    if bits == 0 {
      WordAt(n, acc, 1, 0x800_0000);
    } else if bits == 1 {
      WordAt(n, acc, 2, 0x400_0000);
    } else if bits == 2 {
      WordAt(n, acc, 4, 0x200_0000);
    } else if bits == 3 {
      WordAt(n, acc, 8, 0x100_0000);
    } else if bits == 4 {
      WordAt(n, acc, 16, 0x80_0000);
    } else if bits == 5 {
      WordAt(n, acc, 32, 0x40_0000);
    } else if bits == 6 {
      WordAt(n, acc, 64, 0x20_0000);
    } else {
      WordAt(n, acc, 128, 0x10_0000);
    }
  }

  lemma WordAt(n: int, acc: int, p: int, k: int)
    requires p > 0 && k > 0 && p * (32 * k) == TWO32 && acc == n % TWO32
    ensures acc / p % 32 == n / p % 32
  {
    var q := n / TWO32;
    assert n == TWO32 * q + acc;
    assert TWO32 * q == p * ((32 * k) * q) by {
      MulAssoc(p, 32 * k, q);
    }
    assert p * (acc / p) + acc % p == acc;
    Distribute(p, (32 * k) * q, acc / p);
    Quotient(n, p, (32 * k) * q + acc / p, acc % p);
    MulAssoc(32, k, q);
    Quotient(n / p, 32, k * q + acc / p / 32, acc / p % 32);
  }

  lemma TailWorth(n: int, p: int, w: int, q: int, r: int)
    requires p * w == 32 && n == p * q + r
    ensures n * w == 32 * q + r * w
  {
    assert (p * q) * w == (p * w) * q;
  }

  lemma WordWorth(n: int, acc: int, w: int, big: int)
    requires n == TWO32 * big + acc
    ensures acc * w == n * w - TWO32 * (big * w)
  {
  }

  lemma TailGroup(n: int, acc: int, p: int, w: int)
    requires p > 0 && w > 0 && p * w == 32 && acc == n % TWO32
    ensures acc * w % TWO32 % 32 == (n % p) * w
    ensures 32 * (n / p) + (n % p) * w == n * w
  {
    var q, r, big := n / p, n % p, n / TWO32;
    TailWorth(n, p, w, q, r);
    WordWorth(n, acc, w, big);
    TailBound(p, w, r);
    var bw, m, rw := big * w, acc * w / TWO32, r * w;
    assert acc * w % TWO32 == 32 * (q - 0x800_0000 * bw - 0x800_0000 * m) + rw;
    Quotient(acc * w % TWO32, 32, q - 0x800_0000 * bw - 0x800_0000 * m, rw);
  }

  lemma TailBound(p: int, w: int, r: int)
    requires p * w == 32 && w > 0 && 0 <= r < p
    ensures 0 <= r * w < 32
  {
    MulMonotone(w, 0, r);
    MulMonotone(w, r + 1, p);
  }

  // The last group: what is left, with zeros on the right.
  lemma LastFew(n: int, acc: int, bits: nat, emitted: seq<int>, v: int, count: nat)
    requires 0 < bits < 5 && acc == n % TWO32 && 5 * |emitted| + bits == 8 * count
    requires BE(32, emitted) == n / Pow2(bits) && v == acc * Pow2(5 - bits) % TWO32 % 32
    ensures BE(32, emitted + [v]) == n * Pow(2, Padding(count)) && |emitted| + 1 == GroupCount(count)
  {
    BESnoc(32, emitted, v);
    PaddingSmall(count);
    assert Padding(count) == 5 - bits;
    Pow2Is(5 - bits);
    hide BE, Pow;
    if bits == 1 {
      TailGroup(n, acc, 2, 16);
    } else if bits == 2 {
      TailGroup(n, acc, 4, 8);
    } else if bits == 3 {
      TailGroup(n, acc, 8, 4);
    } else {
      TailGroup(n, acc, 16, 2);
    }
  }

  // ---- Five bits back to eight ----

  // The reader's side, BIP-173's convertbits(5, 8) without padding: the bytes
  // so far, and what has not made up a byte yet.
  function Regroup(groups: seq<int>): (r: (seq<int>, int, nat))
    requires Digits(32, groups)
    ensures r.2 < 8
  {
    if groups == [] then ([], 0, 0)
    else
      var (out, acc, bits) := Regroup(groups[..|groups| - 1]);
      var a, b := acc * 32 + groups[|groups| - 1], bits + 5;
      if b >= 8 then (out + [a / Pow2(b - 8)], a % Pow2(b - 8), b - 8) else (out, a, b)
  }

  lemma {:induction false} RegroupKeepsValue(groups: seq<int>)
    requires Digits(32, groups)
    ensures var (out, acc, bits) := Regroup(groups);
            && Digits(TWO8, out) && 8 * |out| + bits == 5 * |groups| && 0 <= acc < Pow2(bits)
            && BE(TWO8, out) * Pow2(bits) + acc == BE(32, groups)
  {
    hide BE, Pow2;
    RegroupedNothing();
    if groups != [] {
      var k := |groups| - 1;
      RegroupKeepsValue(groups[..k]);
      var (out, acc, bits) := Regroup(groups[..k]);
      var a := acc * 32 + groups[k];
      RegroupStep(BE(TWO8, out), acc, bits, groups[k], BE(32, groups[..k]));
      assert groups == groups[..k] + [groups[k]];
      BESnoc(32, groups[..k], groups[k]);
      if bits >= 3 {
        BESnoc(TWO8, out, a / Pow2(bits - 3));
      }
    }
  }

  lemma RegroupedNothing()
    ensures BE(TWO8, []) == 0 && BE(32, []) == 0 && Pow2(0) == 1
  {
  }

  lemma RegroupStep(value: int, acc: int, bits: nat, v: int, was: int)
    requires bits < 8 && 0 <= acc < Pow2(bits) && 0 <= v < 32 && value * Pow2(bits) + acc == was
    ensures var a := acc * 32 + v;
            if bits >= 3 then
              && 0 <= a / Pow2(bits - 3) < 0x100 && 0 <= a % Pow2(bits - 3) < Pow2(bits - 3)
              && (TWO8 * value + a / Pow2(bits - 3)) * Pow2(bits - 3) + a % Pow2(bits - 3) == 32 * was + v
            else 0 <= a < Pow2(bits + 5) && value * Pow2(bits + 5) + a == 32 * was + v
  {
    var a, p := acc * 32 + v, Pow2(bits);
    assert 32 * was + v == 32 * (value * p) + a;
    if bits >= 3 {
      var q := Pow2(bits - 3);
      assert 32 * p == 0x100 * q && a < 0x100 * q;
      hide Pow2;
      ByteBound(a, q);
      ByteOut(value, a, q, p);
    } else {
      assert Pow2(bits + 5) == 32 * p;
      hide Pow2;
      assert value * (32 * p) == 32 * (value * p);
    }
  }

  lemma ByteOut(value: int, a: int, q: int, p: int)
    requires q > 0 && 32 * p == 0x100 * q
    ensures (TWO8 * value + a / q) * q + a % q == 32 * (value * p) + a
  {
    assert (TWO8 * value) * q == value * (0x100 * q);
    assert value * (32 * p) == 32 * (value * p);
    assert (a / q) * q + a % q == a;
  }

  lemma ByteBound(a: int, q: int)
    requires q > 0 && 0 <= a < 0x100 * q
    ensures 0 <= a / q < 0x100
  {
    var x := a / q;
    if x >= 0x100 {
      MulMonotone(q, 0x100, x);
    }
  }

  lemma SameHigh(x: int, y: int, p: int, low: int)
    requires p > 0 && 0 <= low < p && x * p + low == y * p
    ensures x == y && low == 0
  {
    Quotient(y * p, p, x, low);
    Quotient(y * p, p, y, 0);
  }

  // Every reader gets the bytes back, with nothing but zeros left over.
  lemma RegroupRoundTrip(groups: seq<int>, data: seq<u8>)
    requires Regrouped(groups, data)
    ensures Regroup(groups) == (data, 0, Padding(|data|))
  {
    hide BE, Regroup, Pow, Pow2, Digits, GroupCount, Padding;
    RegroupKeepsValue(groups);
    PaddingSmall(|data|);
    Pow2Is(Padding(|data|));
    var (out, acc, bits) := Regroup(groups);
    assert bits == Padding(|data|) && |out| == |data|;
    SameHigh(BE(TWO8, out), BE(TWO8, data), Pow2(bits), acc);
    BEInjective(TWO8, out, data);
  }

  // The groups are determined by the data: the two passes over it agree.
  lemma RegroupedUnique(a: seq<int>, b: seq<int>, data: seq<u8>)
    requires Regrouped(a, data) && Regrouped(b, data)
    ensures a == b
  {
    hide BE, Pow;
    BEInjective(32, a, b);
  }

  // ---- The string ----

  const BECH32_MAX_OUT := 512

  const CHARSET_1 := "QPZRY9X8GF2"
  const CHARSET_2 := "TVDW0S3JN54"
  const CHARSET_3 := "KHCE6MUA7L"
  const CHARSET_UPPER: string := CHARSET_1 + CHARSET_2 + CHARSET_3

  predicate HrpOk(hrp: string) {
    hrp != "" && forall i | 0 <= i < |hrp| :: 33 <= hrp[i] as int <= 126
  }

  function EncodedLen(hrp: string, n: nat): nat {
    if !HrpOk(hrp) then 0
    else
      var total := |hrp| + 1 + GroupCount(n) + 6;
      if total > BECH32_MAX_OUT then 0 else total
  }

  function HrpLower(c: char): int {
    if 'A' <= c <= 'Z' then c as int - 'A' as int + 'a' as int else c as int
  }

  function Upper(c: char): char {
    if 'a' <= c <= 'z' then (c as int - 'a' as int + 'A' as int) as char else c
  }

  function UpperAll(s: string): (r: string)
    ensures |r| == |s|
  {
    seq(|s|, i requires 0 <= i < |s| => Upper(s[i]))
  }

  function HighBits(c: char): bv32
    requires c as int <= 255
  {
    (HrpLower(c) / 32) as bv32
  }

  function LowBits(c: char): bv32
    requires c as int <= 255
  {
    (HrpLower(c) % 32) as bv32
  }

  // The human-readable part as the checksum sees it: in lower case.
  function HrpExpand(hrp: string): seq<bv32>
    requires HrpOk(hrp)
  {
    seq(|hrp|, i requires 0 <= i < |hrp| => HighBits(hrp[i])) + [0]
    + seq(|hrp|, i requires 0 <= i < |hrp| => LowBits(hrp[i]))
  }

  function AsBits(groups: seq<int>): (r: seq<bv32>)
    requires Digits(32, groups)
    ensures |r| == |groups| && FiveBits(r) && forall i | 0 <= i < |groups| :: r[i] as int == groups[i]
  {
    AllAsBits(groups);
    seq(|groups|, i requires 0 <= i < |groups| => groups[i] as bv32)
  }

  function CharOf(v: bv32): char
    requires v < 32
  {
    CHARSET_UPPER[v as int]
  }

  function Chars(values: seq<bv32>): (r: string)
    requires FiveBits(values)
    ensures |r| == |values|
  {
    seq(|values|, i requires 0 <= i < |values| => CharOf(values[i]))
  }

  // Everything the checksum covers.
  function Covered(hrp: string, groups: seq<int>): seq<bv32>
    requires HrpOk(hrp) && Digits(32, groups)
  {
    HrpExpand(hrp) + AsBits(groups)
  }

  // The character set and the expansion of the human-readable part, as BIP-173
  // has them.
  lemma CharsetIs()
    ensures CHARSET_UPPER == "QPZRY9X8GF2TVDW0S3JN54KHCE6MUA7L"
  {
  }

  lemma HrpExpandIs(hrp: string, i: nat)
    requires HrpOk(hrp) && i < |hrp|
    ensures var lower := if 'A' <= hrp[i] <= 'Z' then hrp[i] as int + 32 else hrp[i] as int;
            var expanded := HrpExpand(hrp);
            && |expanded| == 2 * |hrp| + 1 && expanded[|hrp|] == 0
            && expanded[i] as int == lower / 32 && expanded[|hrp| + 1 + i] as int == lower % 32
  {
    var lower := HrpLower(hrp[i]);
    GroupAsBits(lower / 32);
    GroupAsBits(lower % 32);
    assert HrpExpand(hrp)[i] == HighBits(hrp[i]) && HrpExpand(hrp)[|hrp| + 1 + i] == LowBits(hrp[i]);
  }

  lemma GroupAsBits(v: int)
    requires 0 <= v < 32
    ensures v as bv32 < 32 && (v as bv32) as int == v
  {
    match v {
      case 0 => case 1 => case 2 => case 3 => case 4 => case 5 => case 6 => case 7 => case 8 => case 9 => case 10 =>
      case 11 => case 12 => case 13 => case 14 => case 15 => case 16 => case 17 => case 18 => case 19 =>
      case 20 => case 21 =>
      case 22 => case 23 => case 24 => case 25 => case 26 => case 27 => case 28 => case 29 => case 30 => case 31 =>
    }
  }

  lemma AllAsBits(groups: seq<int>)
    requires Digits(32, groups)
    ensures forall i | 0 <= i < |groups| :: groups[i] as bv32 < 32 && (groups[i] as bv32) as int == groups[i]
  {
    forall i | 0 <= i < |groups|
      ensures groups[i] as bv32 < 32 && (groups[i] as bv32) as int == groups[i]
    {
      GroupAsBits(groups[i]);
    }
  }

  // The data part of the string, checksum included.
  function DataPart(hrp: string, groups: seq<int>): (values: seq<bv32>)
    requires HrpOk(hrp) && Digits(32, groups)
    ensures |values| == |groups| + 6 && FiveBits(values)
  {
    hide AsBits, Checksum, Covered, ChecksumDigits;
    AsBits(groups) + ChecksumDigits(Checksum(Covered(hrp, groups)))
  }

  function Emitted(hrp: string, groups: seq<int>): string
    requires HrpOk(hrp) && Digits(32, groups)
  {
    UpperAll(hrp) + ['1'] + Chars(DataPart(hrp, groups))
  }

  // ---- What a reader of the string finds ----

  // The value a character stands for, or 32 for one that is not in the set.
  function ValueOf(c: char): (v: nat)
    ensures v <= 32
  {
    match c
    case 'Q' => 0 case 'P' => 1 case 'Z' => 2 case 'R' => 3 case 'Y' => 4 case '9' => 5 case 'X' => 6 case '8' => 7
    case 'G' => 8 case 'F' => 9 case '2' => 10 case 'T' => 11 case 'V' => 12 case 'D' => 13 case 'W' => 14
    case '0' => 15
    case 'S' => 16 case '3' => 17 case 'J' => 18 case 'N' => 19 case '5' => 20 case '4' => 21 case 'K' => 22
    case 'H' => 23
    case 'C' => 24 case 'E' => 25 case '6' => 26 case 'M' => 27 case 'U' => 28 case 'A' => 29 case '7' => 30
    case 'L' => 31
    case _ => 32
  }

  lemma CharReads(v: nat)
    requires v < 32
    ensures ValueOf(CHARSET_UPPER[v]) == v && CHARSET_UPPER[v] != '1'
  {
    if v < 11 {
      FirstThird(v);
    } else if v < 22 {
      SecondThird(v - 11);
    } else {
      LastThird(v - 22);
    }
  }

  lemma FirstThird(v: nat)
    requires v < 11
    ensures ValueOf(CHARSET_1[v]) == v && CHARSET_1[v] != '1'
  {
    match v {
      case 0 => case 1 => case 2 => case 3 => case 4 => case 5 => case 6 => case 7 => case 8 => case 9 => case 10 =>
    }
  }

  lemma SecondThird(v: nat)
    requires v < 11
    ensures ValueOf(CHARSET_2[v]) == v + 11 && CHARSET_2[v] != '1'
  {
    match v {
      case 0 => case 1 => case 2 => case 3 => case 4 => case 5 => case 6 => case 7 => case 8 => case 9 => case 10 =>
    }
  }

  lemma LastThird(v: nat)
    requires v < 10
    ensures ValueOf(CHARSET_3[v]) == v + 22 && CHARSET_3[v] != '1'
  {
    match v {
      case 0 => case 1 => case 2 => case 3 => case 4 => case 5 => case 6 => case 7 => case 8 => case 9 =>
    }
  }

  lemma BitsRead(d: bv32)
    requires d < 32
    ensures 0 <= d as int < 32 && (d as int) as bv32 == d
  {
  }

  ghost predicate Reads(text: string, values: seq<bv32>) {
    |text| == |values| && forall i | 0 <= i < |text| :: ValueOf(text[i]) as bv32 == values[i] && text[i] != '1'
  }

  lemma CharsRead(values: seq<bv32>)
    requires FiveBits(values)
    ensures Reads(Chars(values), values)
  {
    forall i | 0 <= i < |values|
      ensures ValueOf(Chars(values)[i]) as bv32 == values[i] && Chars(values)[i] != '1'
    {
      BitsRead(values[i]);
      CharReads(values[i] as int);
    }
  }

  lemma UpperOk(c: char)
    requires 33 <= c as int <= 126
    ensures 33 <= Upper(c) as int <= 126 && HrpLower(Upper(c)) == HrpLower(c)
    ensures HighBits(Upper(c)) == HighBits(c) && LowBits(Upper(c)) == LowBits(c)
  {
  }

  // Whatever case the human-readable part goes out in, the checksum is over
  // its lower-case form, so a reader of the upper-case string agrees.
  lemma CaseDoesNotMatter(hrp: string)
    requires HrpOk(hrp)
    ensures HrpOk(UpperAll(hrp)) && HrpExpand(UpperAll(hrp)) == HrpExpand(hrp)
  {
    hide Upper, HrpLower, HighBits, LowBits;
    forall i | 0 <= i < |hrp|
      ensures 33 <= Upper(hrp[i]) as int <= 126
      ensures HighBits(Upper(hrp[i])) == HighBits(hrp[i]) && LowBits(Upper(hrp[i])) == LowBits(hrp[i])
    {
      UpperOk(hrp[i]);
    }
  }

  // What a reader does with the string: split at the last '1', look every
  // character up, check the remainder, regroup all but the checksum.
  ghost predicate ValidBech32(text: string, hrpLen: nat, values: seq<bv32>) {
    && 0 < hrpLen < |text| && HrpOk(text[..hrpLen]) && text[hrpLen] == '1'
    && Reads(text[hrpLen + 1..], values)
    && Polymod(1, HrpExpand(text[..hrpLen]) + values) == 1
  }

  // What a reader of the upper-case string computes is the remainder 1.
  lemma EmittedChecks(hrp: string, groups: seq<int>)
    requires HrpOk(hrp) && Digits(32, groups)
    ensures HrpOk(UpperAll(hrp)) && Polymod(1, HrpExpand(UpperAll(hrp)) + DataPart(hrp, groups)) == 1
  {
    hide HrpExpand, Polymod, Checksum, ChecksumDigits, AsBits, UpperAll, HrpOk;
    CaseDoesNotMatter(hrp);
    ChecksumEquation(Covered(hrp, groups));
    var sum := ChecksumDigits(Checksum(Covered(hrp, groups)));
    assert HrpExpand(hrp) + DataPart(hrp, groups) == Covered(hrp, groups) + sum;
  }

  lemma EmittedIsValid(hrp: string, groups: seq<int>)
    requires HrpOk(hrp) && Digits(32, groups)
    ensures ValidBech32(Emitted(hrp, groups), |hrp|, DataPart(hrp, groups))
    ensures DataPart(hrp, groups)[..|groups|] == AsBits(groups)
  {
    hide HrpExpand, Polymod, Checksum, ChecksumDigits, AsBits, Chars, UpperAll, Reads, FiveBits;
    var text, values := Emitted(hrp, groups), DataPart(hrp, groups);
    assert text[..|hrp|] == UpperAll(hrp) && text[|hrp| + 1..] == Chars(values);
    CharsRead(values);
    EmittedChecks(hrp, groups);
  }

  // Where the last '1' is, or -1.
  function LastOne(text: string): (k: int)
    ensures -1 <= k < |text|
  {
    if text == "" then -1
    else if text[|text| - 1] == '1' then |text| - 1
    else LastOne(text[..|text| - 1])
  }

  lemma {:induction false} LastOneAt(front: string, tail: string)
    requires forall i | 0 <= i < |tail| :: tail[i] != '1'
    ensures LastOne(front + ['1'] + tail) == |front|
  {
    var text := front + ['1'] + tail;
    if tail == "" {
      assert text == front + ['1'];
    } else {
      var k := |tail| - 1;
      LastOneAt(front, tail[..k]);
      assert text[..|text| - 1] == front + ['1'] + tail[..k];
    }
  }

  function ValuesOf(text: string): (values: seq<int>)
    ensures |values| == |text|
  {
    seq(|text|, i requires 0 <= i < |text| => ValueOf(text[i]))
  }

  // A reader of the two parts of a string,
  ghost function ReadParts(hrp: string, chars: string): Option<seq<int>> {
    if |chars| < 6 || !HrpOk(hrp) then None
    else
      var values := ValuesOf(chars);
      if !Digits(32, values) || Polymod(1, HrpExpand(hrp) + AsBits(values)) != 1 then None
      else
        var (bytes, rest, bits) := Regroup(values[..|values| - 6]);
        if rest == 0 && bits < 5 then Some(bytes) else None
  }

  // and of the string, from its characters alone.
  ghost function Read(text: string): Option<seq<int>> {
    var k := LastOne(text);
    if k < 0 then None else ReadParts(text[..k], text[k + 1..])
  }

  lemma ValuesOfChars(values: seq<bv32>)
    requires FiveBits(values)
    ensures var ints := ValuesOf(Chars(values));
            && Digits(32, ints) && AsBits(ints) == values
            && forall i | 0 <= i < |values| :: ints[i] == values[i] as int
  {
    var ints := ValuesOf(Chars(values));
    forall i | 0 <= i < |values|
      ensures 0 <= ints[i] < 32 && ints[i] == values[i] as int && ints[i] as bv32 == values[i]
    {
      BitsRead(values[i]);
      CharReads(values[i] as int);
    }
  }

  // The characters of the data part stand for the groups, then the checksum.
  lemma DataValues(hrp: string, groups: seq<int>)
    requires HrpOk(hrp) && Digits(32, groups)
    ensures var values := ValuesOf(Chars(DataPart(hrp, groups)));
            Digits(32, values) && AsBits(values) == DataPart(hrp, groups) && values[..|values| - 6] == groups
  {
    hide ValidBech32, Chars, DataPart, HrpOk, AsBits, ValuesOf;
    var bits := DataPart(hrp, groups);
    EmittedIsValid(hrp, groups);
    ValuesOfChars(bits);
    var values := ValuesOf(Chars(bits));
    forall i | 0 <= i < |groups|
      ensures values[i] == groups[i]
    {
      assert bits[..|groups|][i] == AsBits(groups)[i];
    }
  }

  lemma PartsReadBack(hrp: string, groups: seq<int>, data: seq<u8>)
    requires HrpOk(hrp) && Regrouped(groups, data)
    ensures ReadParts(UpperAll(hrp), Chars(DataPart(hrp, groups))) == Some(data)
  {
    hide HrpExpand, Polymod, Chars, UpperAll, HrpOk, Regroup, ValuesOf, AsBits, DataPart, BE, Pow;
    DataValues(hrp, groups);
    EmittedChecks(hrp, groups);
    RegroupRoundTrip(groups, data);
    PaddingSmall(|data|);
  }

  // Reading the characters that were written gives the bytes back.
  lemma ReadsBack(hrp: string, groups: seq<int>, data: seq<u8>)
    requires HrpOk(hrp) && Regrouped(groups, data)
    ensures Read(Emitted(hrp, groups)) == Some(data)
  {
    var text, chars := Emitted(hrp, groups), Chars(DataPart(hrp, groups));
    PartsReadBack(hrp, groups, data);
    CharsRead(DataPart(hrp, groups));
    hide Regrouped, ReadParts, Chars, UpperAll, HrpOk, DataPart, LastOne;
    LastOneAt(UpperAll(hrp), chars);
    assert text[..|hrp|] == UpperAll(hrp) && text[|hrp| + 1..] == chars;
  }

  // ---- The encoder ----

  lemma AsBitsSnoc(groups: seq<int>, v: int)
    requires Digits(32, groups) && 0 <= v < 32
    ensures Digits(32, groups + [v]) && AsBits(groups + [v]) == AsBits(groups) + [v as bv32]
  {
    assert AsBits(groups + [v]) == AsBits(groups) + [v as bv32] by {
      GroupAsBits(v);
    }
  }

  function Zeros(n: nat): seq<bv32> {
    seq(n, i => 0)
  }

  method HrpChecksum(hrp: string) returns (chk: bv32)
    requires HrpOk(hrp)
    ensures chk == Polymod(1, HrpExpand(hrp))
  {
    hide Polymod, PolymodStep;
    ghost var high: seq<bv32> := seq(|hrp|, i requires 0 <= i < |hrp| => HighBits(hrp[i]));
    ghost var low: seq<bv32> := seq(|hrp|, i requires 0 <= i < |hrp| => LowBits(hrp[i]));
    hide HighBits, LowBits;
    chk := 1;
    PolymodSnoc(1, [], 0);
    for i := 0 to |hrp|
      invariant chk == Polymod(1, high[..i])
    {
      chk := PolymodStep(chk, HighBits(hrp[i]));
      PolymodSnoc(1, high[..i], high[i]);
      assert high[..i + 1] == high[..i] + [high[i]];
    }
    chk := PolymodStep(chk, 0);
    assert high[..|hrp|] == high;
    PolymodSnoc(1, high, 0);
    ghost var front := high + [0];
    assert front + low[..0] == front;
    for i := 0 to |hrp|
      invariant chk == Polymod(1, front + low[..i])
    {
      chk := PolymodStep(chk, LowBits(hrp[i]));
      PolymodSnoc(1, front + low[..i], low[i]);
      assert front + low[..i + 1] == (front + low[..i]) + [low[i]];
    }
    assert low[..|hrp|] == low;
  }

  // The first walk over the data.
  method BuildChecksum(hrp: string, data: seq<u8>) returns (chk: bv32, ghost groups: seq<int>)
    requires HrpOk(hrp)
    ensures Regrouped(groups, data) && chk == Checksum(Covered(hrp, groups))
  {
    hide Polymod, PolymodStep, HrpExpand, AsBits, Xor, Regrouped, BE, Pow;
    chk := HrpChecksum(hrp);
    var g := new GroupCursor(data);
    var more, v := true, 0;
    NoGroups(hrp);
    while more
      invariant g.Valid() && g.data == data && fresh(g) && Digits(32, g.emitted)
      invariant chk == Polymod(1, Covered(hrp, g.emitted)) && (!more ==> Regrouped(g.emitted, data))
      invariant more ==> |g.emitted| <= GroupCount(|data|)
      decreases more, GroupCount(|data|) - |g.emitted|
    {
      ghost var was := g.emitted;
      more, v := g.Next();
      if more {
        chk := PolymodStep(chk, v as bv32);
        CoveredSnoc(hrp, was, v);
      }
    }
    groups := g.emitted;
    chk := SixZeros(chk, Covered(hrp, groups));
    chk := Xor(chk, 1);
  }

  lemma NoGroups(hrp: string)
    requires HrpOk(hrp)
    ensures Covered(hrp, []) == HrpExpand(hrp)
  {
    hide HrpExpand;
  }

  lemma CoveredSnoc(hrp: string, groups: seq<int>, v: int)
    requires HrpOk(hrp) && Digits(32, groups) && 0 <= v < 32
    ensures Digits(32, groups + [v])
    ensures Polymod(1, Covered(hrp, groups + [v])) == PolymodStep(Polymod(1, Covered(hrp, groups)), v as bv32)
  {
    AsBitsSnoc(groups, v);
    hide Polymod, PolymodStep, HrpExpand, AsBits;
    PolymodSnoc(1, Covered(hrp, groups), v as bv32);
    assert Covered(hrp, groups + [v]) == Covered(hrp, groups) + [v as bv32];
  }

  method SixZeros(start: bv32, ghost values: seq<bv32>) returns (chk: bv32)
    requires start == Polymod(1, values)
    ensures chk == Polymod(1, values + SIX_ZEROS)
  {
    hide Polymod, PolymodStep;
    chk := start;
    assert values + Zeros(0) == values;
    for i := 0 to 6
      invariant chk == Polymod(1, values + Zeros(i))
    {
      PolymodSnoc(1, values + Zeros(i), 0);
      assert values + Zeros(i + 1) == (values + Zeros(i)) + [0];
      chk := PolymodStep(chk, 0);
    }
    assert Zeros(6) == SIX_ZEROS;
  }

  lemma CharsSnoc(values: seq<bv32>, v: bv32)
    requires FiveBits(values) && v < 32
    ensures FiveBits(values + [v]) && Chars(values + [v]) == Chars(values) + [CharOf(v)]
  {
    hide CharOf;
  }

  lemma CharsConcat(a: seq<bv32>, b: seq<bv32>)
    requires FiveBits(a) && FiveBits(b)
    ensures FiveBits(a + b) && Chars(a + b) == Chars(a) + Chars(b)
  {
    hide CharOf;
  }

  method EmitHrp(hrp: string, out: array<char>) returns (n: nat)
    requires |hrp| < out.Length
    modifies out
    ensures n == |hrp| + 1 && out[..n] == UpperAll(hrp) + ['1']
  {
    n := 0;
    for i := 0 to |hrp|
      invariant n == i && out[..n] == UpperAll(hrp)[..i]
    {
      out[n] := Upper(hrp[i]);
      n := n + 1;
    }
    assert out[..n] == UpperAll(hrp);
    out[n] := '1';
    n := n + 1;
  }

  // The second walk over the data.
  method EmitGroups(data: seq<u8>, out: array<char>, at: nat, ghost groups: seq<int>) returns (n: nat)
    requires at + GroupCount(|data|) <= out.Length && Regrouped(groups, data)
    modifies out
    ensures n == at + |groups| && out[..n] == old(out[..at]) + Chars(AsBits(groups))
  {
    hide Regrouped, AsBits, Chars;
    var g := new GroupCursor(data);
    var more, v := true, 0;
    n := at;
    NoChars();
    while more
      invariant g.Valid() && g.data == data && fresh(g) && Digits(32, g.emitted)
      invariant n == at + |g.emitted| && at <= n <= out.Length
      invariant out[..n] == old(out[..at]) + Chars(AsBits(g.emitted))
      invariant more ==> |g.emitted| <= GroupCount(|data|)
      invariant !more ==> Regrouped(g.emitted, data)
      decreases more, GroupCount(|data|) - |g.emitted|
    {
      ghost var was := g.emitted;
      more, v := g.Next();
      if more {
        AsBitsSnoc(was, v);
        GroupAsBits(v);
        CharsSnoc(AsBits(was), v as bv32);
        ghost var before := out[..n];
        out[n] := CHARSET_UPPER[v];
        n := n + 1;
        assert out[..n] == before + [CHARSET_UPPER[v]];
      }
    }
    RegroupedUnique(g.emitted, groups, data);
  }

  lemma NoChars()
    ensures Chars(AsBits([])) == ""
  {
  }

  method EmitChecksum(chk: bv32, out: array<char>, at: nat)
    requires at + 6 <= out.Length
    modifies out
    ensures out[..at + 6] == old(out[..at]) + Chars(ChecksumDigits(chk))
  {
    ghost var digits := ChecksumDigits(chk);
    hide Digit, ChecksumDigits;
    DigitAt(chk);
    for i := 0 to 6
      invariant out[..at + i] == old(out[..at]) + Chars(digits)[..i]
    {
      BitsRead(Digit(chk, i));
      out[at + i] := CHARSET_UPPER[Digit(chk, i) as int];
    }
  }

  lemma DigitAt(chk: bv32)
    ensures forall i | 0 <= i < 6 :: ChecksumDigits(chk)[i] == Digit(chk, i)
  {
    hide Digit;
  }

  // bech32_encode_upper: the whole string or the empty one, never part of it.
  method EncodeUpper(hrp: Option<string>, data: seq<u8>, out: array<char>) returns (ok: bool, ghost groups: seq<int>)
    modifies out
    ensures ok <==> hrp.Some? && 0 < EncodedLen(hrp.value, |data|) < out.Length
    ensures !ok && out.Length > 0 ==> out[0] == '\0'
    ensures ok ==> HrpOk(hrp.value) && Regrouped(groups, data)
    ensures ok ==> |Emitted(hrp.value, groups)| == EncodedLen(hrp.value, |data|)
    ensures ok ==> out[..EncodedLen(hrp.value, |data|)] == Emitted(hrp.value, groups)
    ensures ok ==> out[EncodedLen(hrp.value, |data|)] == '\0'
    ensures ok ==> Read(out[..EncodedLen(hrp.value, |data|)]) == Some(data)
  {
    groups := [];
    if out.Length == 0 {
      return false, [];
    }
    out[0] := '\0';
    if hrp.None? || !HrpOk(hrp.value) {
      return false, [];
    }
    var needed := EncodedLen(hrp.value, |data|);
    if needed == 0 || needed + 1 > out.Length {
      return false, [];
    }
    groups := Emit(hrp.value, data, out, needed);
    ReadsBack(hrp.value, groups, data);
    ok := true;
  }

  method Emit(hrp: string, data: seq<u8>, out: array<char>, needed: nat) returns (ghost groups: seq<int>)
    requires HrpOk(hrp) && needed == |hrp| + 1 + GroupCount(|data|) + 6 < out.Length
    modifies out
    ensures Regrouped(groups, data) && |Emitted(hrp, groups)| == needed
    ensures out[..needed] == Emitted(hrp, groups) && out[needed] == '\0'
  {
    var chk;
    chk, groups := BuildChecksum(hrp, data);
    assert |groups| == GroupCount(|data|) && Digits(32, groups);
    hide Regrouped, AsBits, Chars, ChecksumDigits, Checksum, Covered, UpperAll;
    CharsConcat(AsBits(groups), ChecksumDigits(chk));
    var n := EmitHrp(hrp, out);
    n := EmitGroups(data, out, n, groups);
    EmitChecksum(chk, out, n);
    out[n + 6] := '\0';
    assert out[..needed] == UpperAll(hrp) + ['1'] + Chars(AsBits(groups)) + Chars(ChecksumDigits(chk));
  }
}
