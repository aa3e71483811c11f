// The double-and-add loop of signature verification, two sliding windows at
// once: src/ota/monocypher.c:1996-2068.
module VerifyLoop {
  import opened Machine
  import opened Radix
  import opened Bytes
  import opened Field25519
  import opened Group
  import opened Edwards
  import opened GroupOps
  import opened PointBytes
  import opened SlidingWindow
  import ScalarL

  // A cached point is worth p when it caches coordinates of p.
  ghost predicate Worth<G(!new)>(c: Curve<G>, q: GeCached, q0: Ext, p: G) {
    q.Bounded() && q.Caches(q0) && c.on(q0) && c.at(q0) == p
  }

  // Entry j of a window table holds [2j + 1]p. The coordinates are a witness.
  ghost predicate CachedOdds<G(!new)>(c: Curve<G>, table: seq<GeCached>, coords: seq<Ext>, p: G) {
    && |coords| == |table|
    && forall j | 0 <= j < |table| :: Worth(c, table[j], coords[j], c.group.Times(2 * j + 1, p))
  }

  ghost predicate PrecompOdds<G(!new)>(c: Curve<G>, table: seq<GePrecomp>, coords: seq<Ext>, p: G) {
    && |coords| == |table|
    && forall j | 0 <= j < |table| ::
         table[j].Bounded() && table[j].Caches(coords[j]) && c.on(coords[j])
         && c.at(coords[j]) == c.group.Times(2 * j + 1, p)
  }

  // What the point object p stands for.
  ghost predicate Is<G(!new)>(c: Curve<G>, p: Ge, x: G)
    reads p
  {
    p.Bounded() && c.on(p.Coords()) && c.at(p.Coords()) == x
  }

  method Twice<G(!new)>(sum: Ge, ghost c: Curve<G>, ghost x: G)
    requires c.Law() && Is(c, sum, x)
    modifies sum
    ensures Is(c, sum, c.group.add(x, x))
  {
    hide RfcDouble, Flipped, Curve.Law, Curve.on, Curve.at, Group.add, Group.neg, Ge.Bounded, Ge.Coords;
    var tmp := new Ge(FE_0, FE_0, FE_0, FE_0);
    c.DoubleLaw(sum.Coords());
    GeDouble(sum, sum, tmp);
  }

  method AddCachedDigit<G(!new)>(sum: Ge, table: seq<GeCached>, digit: int, ghost coords: seq<Ext>,
                                 ghost c: Curve<G>, ghost x: G, ghost p: G)
    requires c.Law() && Is(c, sum, x) && CachedOdds(c, table, coords, p)
    requires digit == 0 || (digit % 2 == 1 && -2 * |table| < digit < 2 * |table|)
    modifies sum
    ensures Is(c, sum, c.group.add(x, c.group.Times(digit, p)))
  {
    hide RfcAdd, Opposite, Curve.Law, Curve.on, Curve.at, Group.add, Group.neg, Group.Abelian, Group.Times,
         Ge.Bounded, Ge.Coords;
    c.NeutralLaw();
    if digit > 0 {
      c.AddLaw(sum.Coords(), coords[digit / 2]);
      GeAdd(sum, sum, table[digit / 2], coords[digit / 2]);
      assert digit == 2 * (digit / 2) + 1;
    } else if digit < 0 {
      var j := -digit / 2;
      c.OppositeLaw(coords[j]);
      c.AddLaw(sum.Coords(), Opposite(coords[j]));
      GeSub(sum, sum, table[j], coords[j]);
      assert -digit == 2 * j + 1;
      c.group.TimesNeg(-digit, p);
    } else {
      c.group.TimesZero(p);
      c.group.Zero(x);
    }
  }

  method AddPrecompDigit<G(!new)>(sum: Ge, table: seq<GePrecomp>, digit: int, ghost coords: seq<Ext>,
                                  ghost c: Curve<G>, ghost x: G, ghost p: G)
    requires c.Law() && Is(c, sum, x) && PrecompOdds(c, table, coords, p)
    requires digit == 0 || (digit % 2 == 1 && -2 * |table| < digit < 2 * |table|)
    modifies sum
    ensures Is(c, sum, c.group.add(x, c.group.Times(digit, p)))
  {
    hide RfcAdd, Opposite, Curve.Law, Curve.on, Curve.at, Group.add, Group.neg, Group.Abelian, Group.Times,
         Ge.Bounded, Ge.Coords;
    c.NeutralLaw();
    if digit > 0 {
      c.AddLaw(sum.Coords(), coords[digit / 2]);
      GeMadd(sum, sum, table[digit / 2], coords[digit / 2]);
      assert digit == 2 * (digit / 2) + 1;
    } else if digit < 0 {
      var j := -digit / 2;
      c.OppositeLaw(coords[j]);
      c.AddLaw(sum.Coords(), Opposite(coords[j]));
      GeMsub(sum, sum, table[j], coords[j]);
      assert -digit == 2 * j + 1;
      c.group.TimesNeg(-digit, p);
    } else {
      c.group.TimesZero(p);
      c.group.Zero(x);
    }
  }

  const P_W_WIDTH := 3
  const B_W_WIDTH := 5
  const P_W_SIZE := 2

  // The odd multiples of a, up to [3]a.
  method OddMultiples<G(!new)>(minusA: Ge, ghost c: Curve<G>, ghost a: G)
    returns (lut: seq<GeCached>, ghost coords: seq<Ext>)
    requires c.Law() && Is(c, minusA, a)
    ensures |lut| == P_W_SIZE && CachedOdds(c, lut, coords, a)
  {
    hide RfcAdd, Curve.Law, Curve.on, Curve.at, Group.add, Group.neg, Group.Abelian, Group.Times, Ge.Bounded, Ge.Coords;
    c.NeutralLaw();
    var minusA2 := new Ge(minusA.X, minusA.Y, minusA.Z, minusA.T);
    SameFields(minusA, minusA2, c, a);
    Twice(minusA2, c, a);
    c.group.TimesTwo(a);
    c.group.TimesOne(a);
    var tmp := new Ge(FE_0, FE_0, FE_0, FE_0);
    var first := GeCache(minusA);
    lut, coords := [first], [minusA.Coords()];
    for i := 1 to P_W_SIZE
      invariant |lut| == i && CachedOdds(c, lut, coords, a)
      invariant Is(c, minusA2, c.group.Times(2, a))
    {
      c.AddLaw(minusA2.Coords(), coords[i - 1]);
      GeAdd(tmp, minusA2, lut[i - 1], coords[i - 1]);
      c.group.TimesAdd(2, 2 * (i - 1) + 1, a);
      var next := GeCache(tmp);
      lut, coords := lut + [next], coords + [tmp.Coords()];
    }
  }

  ghost function Num(scalar: seq<u8>): nat {
    ValBound(TWO8, scalar);
    Val(TWO8, scalar)
  }

  // slide_init tests no bit above 252.
  ghost predicate Fits(scalar: seq<u8>) {
    |scalar| == 32 && Num(scalar) < P2(253)
  }

  // Both recodings have got to position i, with these digits behind them.
  ghost predicate Synced(hSlide: SlideCtx, sSlide: SlideCtx, h: seq<u8>, s: seq<u8>, hAcc: int, sAcc: int, i: int)
    reads hSlide, sSlide
  {
    && hSlide.Tracks(Num(h), hAcc, i) && hSlide.SmallOddDigit(P_W_WIDTH)
    && sSlide.Tracks(Num(s), sAcc, i) && sSlide.SmallOddDigit(B_W_WIDTH)
  }

  lemma BothFinished(hSlide: SlideCtx, sSlide: SlideCtx, h: seq<u8>, s: seq<u8>, hAcc: int, sAcc: int)
    requires Synced(hSlide, sSlide, h, s, hAcc, sAcc, -1)
    ensures hAcc == Num(h) && sAcc == Num(s)
  {
    hide SlideCtx.Tracks, SlideCtx.SmallOddDigit;
    hSlide.Finished(Num(h), hAcc);
    sSlide.Finished(Num(s), sAcc);
  }

  // Where the two recodings start: at the higher of their top positions.
  method StartSlides(h: seq<u8>, s: seq<u8>) returns (hSlide: SlideCtx, sSlide: SlideCtx, i: int)
    requires Fits(h) && Fits(s)
    ensures fresh(hSlide) && fresh(sSlide) && hSlide != sSlide && 0 <= i <= 253
    ensures Synced(hSlide, sSlide, h, s, 0, 0, i)
  {
    hide Val, P2, Rounded;
    hSlide := new SlideCtx.Init(h);
    sSlide := new SlideCtx.Init(s);
    i := if hSlide.nextCheck >= sSlide.nextCheck then hSlide.nextCheck else sSlide.nextCheck;
    WindowsAllowed(hSlide, sSlide);
  }

  // One round: double, then add what each recoding has at this position.
  method LadderStep<G(!new)>(sum: Ge, lut: seq<GeCached>, window: seq<GePrecomp>, hDigit: int, sDigit: int,
                             ghost c: Curve<G>, ghost a: G, ghost base: G, ghost m: int, ghost n: int,
                             ghost lutCoords: seq<Ext>, ghost windowCoords: seq<Ext>)
    requires c.Law() && |lut| == 2 && |window| == 8
    requires CachedOdds(c, lut, lutCoords, a) && PrecompOdds(c, window, windowCoords, base)
    requires hDigit == 0 || (hDigit % 2 == 1 && -4 < hDigit < 4)
    requires sDigit == 0 || (sDigit % 2 == 1 && -16 < sDigit < 16)
    requires Is(c, sum, c.group.Combination(m, a, n, base))
    modifies sum
    ensures Is(c, sum, c.group.Combination(2 * m + hDigit, a, 2 * n + sDigit, base))
  {
    hide Curve.Law, Curve.on, Curve.at, Group.add, Group.neg, Group.Abelian, Group.Times, Group.Combination,
         CachedOdds, PrecompOdds, Is;
    c.NeutralLaw();
    c.group.DoubleCombination(m, a, n, base);
    Twice(sum, c, c.group.Combination(m, a, n, base));
    c.group.AddFirst(2 * m, a, 2 * n, base, hDigit);
    AddCachedDigit(sum, lut, hDigit, lutCoords, c, c.group.Combination(2 * m, a, 2 * n, base), a);
    c.group.AddSecond(2 * m + hDigit, a, 2 * n, base, sDigit);
    AddPrecompDigit(sum, window, sDigit, windowCoords, c, c.group.Combination(2 * m + hDigit, a, 2 * n, base), base);
  }

  // Both recodings advance past position i; their digits can index the tables.
  method NextDigits(hSlide: SlideCtx, sSlide: SlideCtx, i: nat, h: seq<u8>, s: seq<u8>,
                    ghost hAcc: int, ghost sAcc: int)
    returns (hDigit: int, sDigit: int)
    requires hSlide != sSlide && |h| == 32 && |s| == 32
    requires Synced(hSlide, sSlide, h, s, hAcc, sAcc, i)
    modifies hSlide, sSlide
    ensures Synced(hSlide, sSlide, h, s, 2 * hAcc + hDigit, 2 * sAcc + sDigit, i - 1)
    ensures hDigit == 0 || (hDigit % 2 == 1 && -4 < hDigit < 4)
    ensures sDigit == 0 || (sDigit % 2 == 1 && -16 < sDigit < 16)
  {
    hide Val, P2, SlideCtx.Tracks, SlideCtx.SmallOddDigit;
    hDigit := hSlide.Step(P_W_WIDTH, i, h, Num(h), hAcc);
    sDigit := sSlide.Step(B_W_WIDTH, i, s, Num(s), sAcc);
    DigitBounds(hSlide, sSlide);
  }

  // The loop itself, from the top position down.
  method DoubleAndAdd<G(!new)>(sum: Ge, lut: seq<GeCached>, window: seq<GePrecomp>, hSlide: SlideCtx,
                               sSlide: SlideCtx, top: int, h: seq<u8>, s: seq<u8>,
                               ghost c: Curve<G>, ghost a: G, ghost base: G,
                               ghost lutCoords: seq<Ext>, ghost windowCoords: seq<Ext>)
    returns (ghost hAcc: int, ghost sAcc: int)
    requires c.Law() && Fits(h) && Fits(s)
    requires |lut| == 2 && CachedOdds(c, lut, lutCoords, a)
    requires |window| == 8 && PrecompOdds(c, window, windowCoords, base)
    requires hSlide != sSlide && 0 <= top <= 253
    requires Synced(hSlide, sSlide, h, s, 0, 0, top)
    requires Is(c, sum, c.group.Combination(0, a, 0, base))
    modifies sum, hSlide, sSlide
    ensures hAcc == Num(h) && sAcc == Num(s)
    ensures Is(c, sum, c.group.Combination(hAcc, a, sAcc, base))
  {
    hide Synced, Num, Pow, P2, Curve.Law, Group.Abelian, Group.Times, Group.Combination, CachedOdds, PrecompOdds, Is;
    hAcc, sAcc := 0, 0;
    var i := top;
    while i >= 0
      invariant -1 <= i <= 253
      invariant Synced(hSlide, sSlide, h, s, hAcc, sAcc, i)
      invariant Is(c, sum, c.group.Combination(hAcc, a, sAcc, base))
    {
      var hDigit, sDigit := NextDigits(hSlide, sSlide, i, h, s, hAcc, sAcc);
      LadderStep(sum, lut, window, hDigit, sDigit, c, a, base, hAcc, sAcc, lutCoords, windowCoords);
      hAcc, sAcc := 2 * hAcc + hDigit, 2 * sAcc + sDigit;
      i := i - 1;
    }
    BothFinished(hSlide, sSlide, h, s, hAcc, sAcc);
  }

  // sum = [s]B - [h]A, for any two scalars below 2^253: h in windows of 3 bits
  // over a table built from -A, s in windows of 5 bits over a fixed table of B.
  method Ladder<G(!new)>(sum: Ge, lut: seq<GeCached>, window: seq<GePrecomp>, s: seq<u8>, h: seq<u8>,
                         ghost c: Curve<G>, ghost a: G, ghost base: G,
                         ghost lutCoords: seq<Ext>, ghost windowCoords: seq<Ext>)
    requires c.Law() && Fits(s) && Fits(h)
    requires |lut| == 2 && CachedOdds(c, lut, lutCoords, a)
    requires |window| == 8 && PrecompOdds(c, window, windowCoords, base)
    modifies sum
    ensures Is(c, sum, c.group.Combination(Num(h), a, Num(s), base))
  {
    hide Synced, Num, Pow, P2, Curve.Law, Group.Abelian, Group.Times, Group.Combination, CachedOdds, PrecompOdds, Is;
    var hSlide, sSlide, i := StartSlides(h, s);
    GeZero(sum);
    StartsAtZero(c, sum, a, base);
    ghost var hAcc, sAcc := DoubleAndAdd(sum, lut, window, hSlide, sSlide, i, h, s, c, a, base, lutCoords,
        windowCoords);
  }

  lemma StartsAtZero<G(!new)>(c: Curve<G>, sum: Ge, a: G, base: G)
    requires c.Law() && sum.Bounded() && sum.Coords() == NEUTRAL
    ensures Is(c, sum, c.group.Combination(0, a, 0, base))
  {
    hide Curve.Law, Group.Abelian;
    c.NeutralLaw();
    c.group.Zero(c.group.zero);
  }

  // Digits of 3- and 5-bit windows index tables of 2 and 8 odd multiples.
  lemma DigitBounds(h: SlideCtx, s: SlideCtx)
    requires h.SmallOddDigit(P_W_WIDTH) && s.SmallOddDigit(B_W_WIDTH)
    ensures h.nextDigit % 2 == 1 && -4 < h.nextDigit < 4
    ensures s.nextDigit % 2 == 1 && -16 < s.nextDigit < 16
  {
    P2Step(0);
    P2Step(1);
    P2Step(2);
    P2Step(3);
  }

  lemma WindowsAllowed(h: SlideCtx, s: SlideCtx)
    requires h.SmallOddDigit(2) && s.SmallOddDigit(2)
    ensures h.SmallOddDigit(P_W_WIDTH) && s.SmallOddDigit(B_W_WIDTH)
  {
    P2Step(0);
    P2Step(1);
    P2Step(2);
    P2Step(3);
  }

  lemma SameFields<G(!new)>(p: Ge, q: Ge, c: Curve<G>, x: G)
    requires p.X == q.X && p.Y == q.Y && p.Z == q.Z && p.T == q.T && Is(c, p, x)
    ensures Is(c, q, x)
  {
    hide Curve.Law;
  }

  // Three doublings in place, with other for scratch.
  method EightTimes<G(!new)>(sum: Ge, other: Ge, ghost c: Curve<G>, ghost x: G)
    requires c.Law() && Is(c, sum, x) && sum != other
    modifies sum, other
    ensures Is(c, sum, c.group.Times(8, x))
  {
    hide RfcDouble, Flipped, Curve.Law, Curve.on, Curve.at, Group.add, Group.neg, Group.Abelian, Group.Times,
         Ge.Bounded, Ge.Coords;
    c.NeutralLaw();
    c.group.TimesEight(x);
    c.DoubleLaw(sum.Coords());
    GeDouble(sum, sum, other);
    c.DoubleLaw(sum.Coords());
    GeDouble(sum, sum, other);
    c.DoubleLaw(sum.Coords());
    GeDouble(sum, sum, other);
  }

  // crypto_eddsa_check_equation. aOk and rOk say whether the key and the first
  // half of the signature decoded; minusA and minusR are the decoded points,
  // already negated. What is accepted is [8]([s]B - [h]A - R) = 0.
  method CheckEquation<G(!new)>(aOk: bool, minusA: Ge, rOk: bool, minusR: Ge, s: seq<u8>, h: seq<u8>,
                                window: seq<GePrecomp>, invert: Fe -> Fe, ghost c: Curve<G>, ghost a: G, ghost r: G,
                                ghost base: G, ghost windowCoords: seq<Ext>)
    returns (rejected: bool)
    requires c.Law() && c.NeutralAlone() && Inverts(invert)
    requires minusA != minusR && |s| == 32 && |h| == 32 && Num(h) < ScalarL.L
    requires aOk ==> Is(c, minusA, a)
    requires rOk ==> Is(c, minusR, r)
    requires |window| == 8 && PrecompOdds(c, window, windowCoords, base)
    modifies minusA, minusR
    ensures !rejected <==>
            && aOk && rOk && Num(s) < ScalarL.L
            && c.group.Times(8, c.group.add(c.group.Combination(Num(h), a, Num(s), base), r)) == c.group.zero
  {
    hide Inverts, Curve.NeutralAlone;
    hide Num, Fits, P2, RfcAdd, Curve.Law, Curve.on, Curve.at, Group.add, Group.Abelian, Group.Times,
         Group.Combination, Ge.Bounded, Ge.Coords, CachedOdds, PrecompOdds;
    var aboveL := SIsAboveL(s);
    if !aOk || !rOk || aboveL {
      return true;
    }
    BelowLFits(s);
    BelowLFits(h);
    var lut, lutCoords := OddMultiples(minusA, c, a);
    Ladder(minusA, lut, window, s, h, c, a, base, lutCoords, windowCoords);
    var cached := GeCache(minusR);
    c.AddLaw(minusA.Coords(), minusR.Coords());
    GeAdd(minusA, minusA, cached, minusR.Coords());
    EightTimes(minusA, minusR, c, c.group.add(c.group.Combination(Num(h), a, Num(s), base), r));
    var neutral := AtNeutral(minusA, invert, c);
    rejected := !neutral;
  }

  method AtNeutral<G(!new)>(p: Ge, invert: Fe -> Fe, ghost c: Curve<G>) returns (neutral: bool)
    requires c.NeutralAlone() && Inverts(invert) && p.Bounded() && c.on(p.Coords())
    ensures neutral <==> c.at(p.Coords()) == c.group.zero
  {
    hide Inverts, Ge.Coords, Ge.Bounded, Curve.on, Curve.at;
    c.NeutralAloneLaw(p.Coords());
    neutral := IsNeutral(p, invert);
  }

  method SIsAboveL(s: seq<u8>) returns (above: bool)
    requires |s| == 32
    ensures above <==> Num(s) >= ScalarL.L
  {
    var s32 := Load32LeBuf(s, 8);
    hide Val;
    var carry := ScalarL.IsAboveL(s32);
    above := carry != 0;
  }

  lemma BelowLFits(s: seq<u8>)
    requires |s| == 32 && Num(s) < ScalarL.L
    ensures Fits(s)
  {
    hide Num, P2;
    PowerOf253();
  }

  lemma PowerOf253()
    ensures P2(253) == 0x20000000_00000000_00000000_00000000_00000000_00000000_00000000_00000000
  {
    PowersUpTo8();
    hide P2;
    P2Add(8, 8);
    P2Add(16, 13);
    P2Add(8, 5);
    P2Add(16, 16);
    P2Add(32, 29);
    P2Add(32, 32);
    P2Add(64, 61);
    P2Add(64, 64);
    P2Add(128, 125);
  }

  lemma PowersUpTo8()
    ensures P2(5) == 32 && P2(8) == 256
  {
    P2Step(0);
    P2Step(1);
    P2Step(2);
    P2Step(3);
    P2Step(4);
    P2Step(5);
    P2Step(6);
    P2Step(7);
  }
}
