// Multiplication of the base point by a scalar, with two signed combs of four
// teeth each: src/ota/monocypher.c:2170-2238.
module SignedComb {
  import opened Machine
  import opened Radix
  import opened Bytes
  import opened Field25519
  import opened Group
  import opened Edwards
  import opened GroupOps
  import opened SlidingWindow
  import opened VerifyLoop
  import ScalarL

  // ---- Numbers whose bits stand for plus and minus one ----

  // n without its k lowest bits.
  ghost function Upper(n: nat, k: nat): nat {
    n / P2(k)
  }

  // The low k bits of n, a set bit worth 1 and a clear one -1.
  ghost function SignedBits(n: nat, k: nat): int {
    if k == 0 then 0 else 2 * (n % 2) - 1 + 2 * SignedBits(n / 2, k - 1)
  }

  lemma {:induction false} SignedBitsValue(n: nat, k: nat)
    requires n < P2(k)
    ensures SignedBits(n, k) == 2 * n - (P2(k) - 1)
  {
    P2Step(0);
    if k > 0 {
      P2Step(k - 1);
      SignedBitsValue(n / 2, k - 1);
    }
  }

  lemma {:induction false} SignedBitsSplit(n: nat, a: nat, b: nat)
    ensures SignedBits(n, a + b) == SignedBits(n, a) + P2(a) * SignedBits(Upper(n, a), b)
  {
    hide P2;
    P2Step(0);
    if a == 0 {
      assert n / 1 == n;
    } else {
      P2Step(a - 1);
      DivMul(n, 2, P2(a - 1));
      SignedBitsSplit(n / 2, a - 1, b);
      MulAssoc(2, P2(a - 1), SignedBits(Upper(n, a), b));
    }
  }

  // What four teeth at bits b0 to b3, 32 positions apart, add up to.
  function Teeth(b0: int, b1: int, b2: int, b3: int): int {
    (2 * b0 - 1) + 0x1_0000_0000 * (2 * b1 - 1) + 0x1_0000_0000_0000_0000 * (2 * b2 - 1)
    + 0x1_0000_0000_0000_0000_0000_0000 * (2 * b3 - 1)
  }

  // The same with every tooth worth unit times as much.
  ghost function CombDigit(unit: int, b0: int, b1: int, b2: int, b3: int): int {
    unit * Teeth(b0, b1, b2, b3)
  }

  ghost function DigitAt(unit: int, n: nat, k: nat): int {
    CombDigit(unit, Bit(n, k), Bit(n, k + 32), Bit(n, k + 64), Bit(n, k + 96))
  }

  ghost function RowsDone(i: nat): nat {
    if i <= 32 then 32 - i else 0
  }

  // What one comb over bits o .. o + 127 has found once it is down at row i.
  ghost function Combed(n: nat, o: nat, i: nat): int {
    SignedBits(Upper(n, o + i), RowsDone(i)) + 0x1_0000_0000 * SignedBits(Upper(n, o + 32 + i), RowsDone(i))
    + 0x1_0000_0000_0000_0000 * SignedBits(Upper(n, o + 64 + i), RowsDone(i))
    + 0x1_0000_0000_0000_0000_0000_0000 * SignedBits(Upper(n, o + 96 + i), RowsDone(i))
  }

  lemma SignedBitsStep(x: nat, m: nat)
    requires m > 0
    ensures SignedBits(x, m) == 2 * (x % 2) - 1 + 2 * SignedBits(x / 2, m - 1)
  {
  }

  lemma NextRow(n: nat, k: nat, m: nat)
    requires m > 0
    ensures SignedBits(Upper(n, k), m) == 2 * Bit(n, k) - 1 + 2 * SignedBits(Upper(n, k + 1), m - 1)
  {
    hide P2, SignedBits, Bit;
    P2Step(k);
    DivMul(n, P2(k), 2);
    BitIs(n, k);
    SignedBitsStep(Upper(n, k), m);
  }

  lemma BitIs(n: nat, k: nat)
    ensures Bit(n, k) == n / P2(k) % 2
  {
  }

  lemma CombedStep(n: nat, o: nat, i: nat)
    requires i < 32
    ensures Combed(n, o, i) == 2 * Combed(n, o, i + 1) + DigitAt(1, n, o + i)
  {
    assert RowsDone(i) == 32 - i && RowsDone(i + 1) == 31 - i;
    NextRow(n, o + i, 32 - i);
    NextRow(n, o + 32 + i, 32 - i);
    NextRow(n, o + 64 + i, 32 - i);
    NextRow(n, o + 96 + i, 32 - i);
    hide P2, SignedBits, Bit;
  }

  lemma CombedNothing(n: nat, o: nat)
    ensures Combed(n, o, 32) == 0
  {
    hide P2, Bit;
  }

  lemma Powers32To256()
    ensures P2(32) == 0x1_0000_0000 && P2(64) == 0x1_0000_0000_0000_0000
    ensures P2(96) == 0x1_0000_0000_0000_0000_0000_0000
    ensures P2(128) == 0x1_0000_0000_0000_0000_0000_0000_0000_0000
    ensures P2(256) == P2(128) * P2(128)
  {
    PowersUpTo8();
    hide P2;
    P2Add(8, 8);
    P2Add(16, 16);
    P2Add(32, 32);
    P2Add(32, 64);
    P2Add(64, 64);
    P2Add(128, 128);
  }

  // A finished comb has read its 128 bits.
  lemma CombedAll(n: nat, o: nat)
    ensures Combed(n, o, 0) == SignedBits(Upper(n, o), 128)
  {
    hide SignedBits, P2;
    var m := Upper(n, o);
    SignedBitsSplit(m, 32, 96);
    SignedBitsSplit(Upper(m, 32), 32, 64);
    SignedBitsSplit(Upper(m, 64), 32, 32);
    Powers32To256();
    P2Add(o, 32);
    P2Add(o, 64);
    P2Add(o, 96);
    DivMul(n, P2(o), P2(32));
    DivMul(n, P2(o), P2(64));
    DivMul(n, P2(o), P2(96));
    DivMul(m, P2(32), P2(32));
    DivMul(m, P2(64), P2(32));
  }

  // ---- One step of a comb ----

  // Entry j of a comb table: its three low teeth as the bits of j say, the top
  // tooth always plus one. The second comb works 128 bits higher up.
  ghost predicate CombTable<G(!new)>(c: Curve<G>, comb: seq<GePrecomp>, coords: seq<Ext>, unit: int, base: G) {
    && |comb| == 8 && |coords| == 8
    && forall j | 0 <= j < 8 :: EntryWorth(c, comb[j], coords[j], CombDigit(unit, j % 2, j / 2 % 2, j / 4, 1), base)
  }

  ghost predicate EntryWorth<G(!new)>(c: Curve<G>, q: GePrecomp, q0: Ext, n: int, base: G) {
    q.Bounded() && q.Caches(q0) && c.on(q0) && c.at(q0) == c.group.Times(n, base)
  }

  // The table index of a tooth pattern: the pattern itself when the top tooth
  // is set, its complement when not.
  function TeethByte(b0: int, b1: int, b2: int, b3: int): bv8
    requires 0 <= b0 <= 1 && 0 <= b1 <= 1 && 0 <= b2 <= 1 && 0 <= b3 <= 1
  {
    (b0 as bv8) + (b1 as bv8 << 1) + (b2 as bv8 << 2) + (b3 as bv8 << 3)
  }

  function IndexOf(teeth: bv8): bv8 {
    (teeth ^ ((teeth >> 3) - 1)) & 7
  }

  lemma IndexIsPattern(b0: int, b1: int, b2: int, b3: int)
    requires 0 <= b0 <= 1 && 0 <= b1 <= 1 && 0 <= b2 <= 1 && 0 <= b3 <= 1
    ensures TeethByte(b0, b1, b2, b3) >> 3 == b3 as bv8
    ensures IndexOf(TeethByte(b0, b1, b2, b3)) as int
         == if b3 == 1 then b0 + 2 * b1 + 4 * b2 else 7 - (b0 + 2 * b1 + 4 * b2)
  {
    if b0 == 0 && b1 == 0 && b2 == 0 {
    } else if b0 == 1 && b1 == 0 && b2 == 0 {
    } else if b0 == 0 && b1 == 1 && b2 == 0 {
    } else if b0 == 1 && b1 == 1 && b2 == 0 {
    } else if b0 == 0 && b1 == 0 && b2 == 1 {
    } else if b0 == 1 && b1 == 0 && b2 == 1 {
    } else if b0 == 0 && b1 == 1 && b2 == 1 {
    }
  }

  // The mask arithmetic that stands for j == index.
  function Selected(j: bv32, index: bv8): bv32 {
    1 & (((j ^ (index as bv32)) - 1) >> 8)
  }

  // Reads all eight entries and keeps the one at index.
  method SelectEntry(comb: seq<GePrecomp>, index: bv8) returns (entry: GePrecomp)
    requires |comb| == 8 && index < 8
    ensures entry == comb[index as int]
  {
    entry := GePrecomp(FE_1, FE_1, FE_0);
    var j: bv32 := 0;
    while j < 8
      invariant j <= 8
      invariant (index as bv32) < j ==> entry == comb[index as int]
      decreases 8 - j
    {
      if Selected(j, index) == 1 {
        entry := comb[j as int];
      }
      j := j + 1;
    }
  }

  lemma Negated(unit: int, b0: int, b1: int, b2: int)
    ensures CombDigit(unit, b0, b1, b2, 0) == -CombDigit(unit, 1 - b0, 1 - b1, 1 - b2, 1)
  {
    assert Teeth(b0, b1, b2, 0) == -Teeth(1 - b0, 1 - b1, 1 - b2, 1);
  }

  lemma PatternBits(j: int, b0: int, b1: int, b2: int)
    requires 0 <= b0 <= 1 && 0 <= b1 <= 1 && 0 <= b2 <= 1 && j == b0 + 2 * b1 + 4 * b2
    ensures 0 <= j < 8 && j % 2 == b0 && j / 2 % 2 == b1 && j / 4 == b2
  {
  }

  lemma EntryFor<G(!new)>(c: Curve<G>, comb: seq<GePrecomp>, coords: seq<Ext>, unit: int, base: G,
                          b0: int, b1: int, b2: int, j: int)
    requires CombTable(c, comb, coords, unit, base)
    requires 0 <= b0 <= 1 && 0 <= b1 <= 1 && 0 <= b2 <= 1 && j == b0 + 2 * b1 + 4 * b2
    ensures 0 <= j < 8 && |comb| == 8 && |coords| == 8
    ensures EntryWorth(c, comb[j], coords[j], CombDigit(unit, b0, b1, b2, 1), base)
  {
    PatternBits(j, b0, b1, b2);
    hide EntryWorth, CombDigit;
  }

  // Entry j, or its opposite, is worth [n]base.
  ghost predicate SignedEntry<G(!new)>(c: Curve<G>, comb: seq<GePrecomp>, coords: seq<Ext>, j: int, plus: bool,
                                       n: int, base: G) {
    && |comb| == 8 && |coords| == 8 && 0 <= j < 8 && comb[j].Bounded() && comb[j].Caches(coords[j])
    && var q0 := if plus then coords[j] else Opposite(coords[j]);
       c.on(q0) && c.at(q0) == c.group.Times(n, base)
  }

  // What the entry selected for a tooth pattern is worth, sign included.
  lemma PatternWorth<G(!new)>(c: Curve<G>, comb: seq<GePrecomp>, coords: seq<Ext>, unit: int, base: G,
                              b0: int, b1: int, b2: int, b3: int, j: nat)
    requires c.Law() && CombTable(c, comb, coords, unit, base)
    requires 0 <= b0 <= 1 && 0 <= b1 <= 1 && 0 <= b2 <= 1 && 0 <= b3 <= 1
    requires j == if b3 == 1 then b0 + 2 * b1 + 4 * b2 else 7 - (b0 + 2 * b1 + 4 * b2)
    ensures SignedEntry(c, comb, coords, j, b3 == 1, CombDigit(unit, b0, b1, b2, b3), base)
  {
    hide Curve.Law, Curve.on, Curve.at, Group.neg, Group.Abelian, Group.Times, CombTable, CombDigit, Opposite,
         GePrecomp.Bounded, GePrecomp.Caches;
    c.NeutralLaw();
    if b3 == 1 {
      EntryFor(c, comb, coords, unit, base, b0, b1, b2, j);
      c.OppositeLaw(coords[j]);
    } else {
      EntryFor(c, comb, coords, unit, base, 1 - b0, 1 - b1, 1 - b2, j);
      c.OppositeLaw(coords[j]);
      Negated(unit, b0, b1, b2);
      c.group.TimesNeg(CombDigit(unit, 1 - b0, 1 - b1, 1 - b2, 1), base);
    }
  }

  // p += what the teeth at bit i select.
  method LookupAdd<G(!new)>(p: Ge, comb: seq<GePrecomp>, scalar: seq<u8>, i: nat, ghost coords: seq<Ext>,
                            ghost c: Curve<G>, ghost unit: int, ghost x: G, ghost base: G)
    requires c.Law() && Is(c, p, x) && |scalar| == 32 && i + 96 < 256
    requires CombTable(c, comb, coords, unit, base)
    modifies p
    ensures Is(c, p, c.group.add(x, c.group.Times(DigitAt(unit, Num(scalar), i), base)))
  {
    hide RfcAdd, Opposite, Curve.Law, Curve.on, Curve.at, Group.add, Group.neg, Group.Abelian, Group.Times,
         Ge.Bounded, Ge.Coords, GePrecomp.Bounded, GePrecomp.Caches, CombDigit, DigitAt, Bit, ScalarBit, P2, Val,
         CombTable, TeethByte, IndexOf, Negative, Tight;
    var b0, b1, b2, b3 := FourBits(scalar, i, unit);
    var teeth := TeethByte(b0, b1, b2, b3);
    IndexIsPattern(b0, b1, b2, b3);
    var high := teeth >> 3;
    var index := IndexOf(teeth);
    PatternWorth(c, comb, coords, unit, base, b0, b1, b2, b3, index as int);
    ghost var q0 := coords[index as int];
    var tmp := SelectEntry(comb, index);
    if high ^ 1 == 1 {
      tmp := Negate(tmp, q0);
      q0 := Opposite(q0);
    }
    c.AddLaw(p.Coords(), q0);
    GeMadd(p, p, tmp, q0);
  }

  // The two swaps of lookup_add, taken.
  method Negate(q: GePrecomp, ghost q0: Ext) returns (r: GePrecomp)
    requires q.Bounded() && q.Caches(q0)
    ensures r.Bounded() && r.Caches(Opposite(q0))
  {
    hide Tight, Sum2, Loose, Residue;
    OppositeSwaps(q0, Residue(FE_D2));
    r := GePrecomp(q.Ym, q.Yp, Negative(q.T2));
  }

  method FourBits(scalar: seq<u8>, i: nat, ghost unit: int) returns (b0: int, b1: int, b2: int, b3: int)
    requires |scalar| == 32 && i + 96 < 256
    ensures 0 <= b0 <= 1 && 0 <= b1 <= 1 && 0 <= b2 <= 1 && 0 <= b3 <= 1
    ensures CombDigit(unit, b0, b1, b2, b3) == DigitAt(unit, Num(scalar), i)
  {
    hide Val, P2, ScalarBit, Bit, CombDigit;
    ScalarBitIsBit(scalar, i);
    ScalarBitIsBit(scalar, i + 32);
    ScalarBitIsBit(scalar, i + 64);
    ScalarBitIsBit(scalar, i + 96);
    b0, b1, b2, b3 := ScalarBit(scalar, i), ScalarBit(scalar, i + 32), ScalarBit(scalar, i + 64), ScalarBit(scalar,
                      i + 96);
  }

  // ---- The whole multiplication ----

  // Both combs down at row i. The upper one starts at bit 128.
  ghost function BothCombed(n: nat, i: nat): int {
    Combed(n, 0, i) + 0x1_0000_0000_0000_0000_0000_0000_0000_0000 * Combed(n, 128, i)
  }

  lemma BothCombedStep(n: nat, i: nat)
    requires i < 32
    ensures BothCombed(n, i)
         == 2 * BothCombed(n, i + 1) + DigitAt(1, n, i)
            + DigitAt(0x1_0000_0000_0000_0000_0000_0000_0000_0000, n, i + 128)
  {
    hide Combed, Bit, DigitAt;
    CombedStep(n, 0, i);
    CombedStep(n, 128, i);
    UnitOutside(n, i + 128);
  }

  lemma UnitOutside(n: nat, k: nat)
    ensures DigitAt(0x1_0000_0000_0000_0000_0000_0000_0000_0000, n, k)
         == 0x1_0000_0000_0000_0000_0000_0000_0000_0000 * DigitAt(1, n, k)
  {
    hide Bit;
  }

  // All 256 bits read: minus the number with every bit clear, twice the scalar.
  lemma BothCombedAll(n: nat)
    requires n < P2(256)
    ensures BothCombed(n, 0) == 2 * n - (P2(256) - 1)
  {
    hide Combed, SignedBits, P2;
    CombedAll(n, 0);
    CombedAll(n, 128);
    P2Step(0);
    SignedBitsSplit(n, 128, 128);
    SignedBitsValue(n, 256);
    Powers32To256();
    assert n / 1 == n;
  }

  // One half modulo L, and half of 2^256 - 1.
  const HALF_MOD_L: seq<u8> := [
    247, 233, 122, 46, 141, 49, 9, 44, 107, 206, 123, 81, 239, 124, 111, 10,
    0, 0, 0, 0, 0, 0, 0, 0, 0, 0, 0, 0, 0, 0, 0, 8
  ]
  const HALF_ONES: seq<u8> := [
    142, 74, 204, 70, 186, 24, 118, 107, 184, 231, 190, 57, 250, 173, 119, 99,
    255, 255, 255, 255, 255, 255, 255, 255, 255, 255, 255, 255, 255, 255, 255, 7
  ]

  const HALF: int := 0x08000000_00000000_00000000_00000000_0a6f7cef_517bce6b_2c09318d_2e7ae9f7
  const ONES: int := 0x07ffffff_ffffffff_ffffffff_ffffffff_6377adfa_39bee7b8_6b7618ba_46cc4a8e

  // Four bytes off the front of a number.
  lemma FirstWord(s: seq<int>)
    requires |s| >= 4
    ensures Val(TWO8, s) == Word(s[0], s[1], s[2], s[3]) + TWO32 * Val(TWO8, s[4..])
  {
    assert Val(TWO8, s[3..]) == s[3] + TWO8 * Val(TWO8, s[3..][1..]) && s[3..][1..] == s[4..];
    assert Val(TWO8, s[2..]) == s[2] + TWO8 * Val(TWO8, s[2..][1..]) && s[2..][1..] == s[3..];
    assert Val(TWO8, s[1..]) == s[1] + TWO8 * Val(TWO8, s[1..][1..]) && s[1..][1..] == s[2..];
  }

  // The number written by 32 bytes, in terms of their 8 words.
  lemma EightWords(s: seq<int>)
    requires |s| == 32
    ensures Val(TWO8, s)
         == WordAt(s, 0) + TWO32 * (WordAt(s, 4) + TWO32 * (WordAt(s, 8) + TWO32 * (WordAt(s, 12)
            + TWO32 * (WordAt(s, 16) + TWO32 * (WordAt(s, 20) + TWO32 * (WordAt(s, 24) + TWO32 * WordAt(s, 28)))))))
  {
    hide Val;
    FirstWord(s);
    FirstWord(s[4..]);
    FirstWord(s[8..]);
    FirstWord(s[12..]);
    FirstWord(s[16..]);
    FirstWord(s[20..]);
    FirstWord(s[24..]);
    FirstWord(s[28..]);
    Empty(TWO8);
    assert s[4..][4..] == s[8..] && s[8..][4..] == s[12..] && s[12..][4..] == s[16..] && s[16..][4..] == s[20..];
    assert s[20..][4..] == s[24..] && s[24..][4..] == s[28..] && s[28..][4..] == [];
  }

  function WordAt(s: seq<int>, k: nat): int
    requires k + 4 <= |s|
  {
    Word(s[k], s[k + 1], s[k + 2], s[k + 3])
  }

  lemma HalfConstants()
    ensures Val(TWO8, HALF_MOD_L) == HALF && Val(TWO8, HALF_ONES) == ONES
  {
    hide Val;
    EightWords(HALF_MOD_L);
    EightWords(HALF_ONES);
  }

  // The all-bits-set form of k: its signed bits add up to k, modulo L.
  lemma SignedFormIsCongruent(k: int, n: int)
    requires n == (k * HALF + ONES) % ScalarL.L
    ensures exists q: int :: 2 * n - (P2(256) - 1) == k + q * ScalarL.L
  {
    hide P2;
    Powers32To256();
    var q0 := (k * HALF + ONES) / ScalarL.L;
    assert 2 * HALF == 1 + ScalarL.L;
    assert 2 * ONES - (P2(256) - 1) == -15 * ScalarL.L;
    assert 2 * n == k * (2 * HALF) + 2 * ONES - 2 * q0 * ScalarL.L;
    assert k * (1 + ScalarL.L) == k + k * ScalarL.L;
    assert 2 * n - (P2(256) - 1) == k + (k - 2 * q0 - 15) * ScalarL.L;
  }

  // One row of both combs on top of what is there.
  method AddRow<G(!new)>(p: Ge, low: seq<GePrecomp>, high: seq<GePrecomp>, scalar: seq<u8>, i: nat,
                         ghost lowCoords: seq<Ext>, ghost highCoords: seq<Ext>,
                         ghost c: Curve<G>, ghost base: G)
    requires c.Law() && |scalar| == 32 && i < 32
    requires Is(c, p, c.group.Times(2 * BothCombed(Num(scalar), i + 1), base))
    requires CombTable(c, low, lowCoords, 1, base)
    requires CombTable(c, high, highCoords, 0x1_0000_0000_0000_0000_0000_0000_0000_0000, base)
    modifies p
    ensures Is(c, p, c.group.Times(BothCombed(Num(scalar), i), base))
  {
    hide Is, Num, Curve.Law, Group.add, Group.neg, Group.Abelian, Group.Times, CombTable, BothCombed, DigitAt;
    ghost var n := Num(scalar);
    ghost var m := 2 * BothCombed(n, i + 1);
    ghost var lowDigit := DigitAt(1, n, i);
    ghost var highDigit := DigitAt(0x1_0000_0000_0000_0000_0000_0000_0000_0000, n, i + 128);
    c.NeutralLaw();
    LookupAdd(p, low, scalar, i, lowCoords, c, 1, c.group.Times(m, base), base);
    c.group.TimesAdd(m, lowDigit, base);
    LookupAdd(p, high, scalar, i + 128, highCoords, c, 0x1_0000_0000_0000_0000_0000_0000_0000_0000,
              c.group.Times(m + lowDigit, base), base);
    c.group.TimesAdd(m + lowDigit, highDigit, base);
    BothCombedStep(n, i);
  }

  // ge_scalarmult_base: p = [scalar]B for every 256-bit scalar, if [L]B = 0.
  method ScalarMultBase<G(!new)>(p: Ge, scalar: seq<u8>, low: seq<GePrecomp>, high: seq<GePrecomp>,
                                 ghost lowCoords: seq<Ext>, ghost highCoords: seq<Ext>,
                                 ghost c: Curve<G>, ghost base: G)
    requires c.Law() && |scalar| == 32 && c.group.Times(ScalarL.L, base) == c.group.zero
    requires CombTable(c, low, lowCoords, 1, base)
    requires CombTable(c, high, highCoords, 0x1_0000_0000_0000_0000_0000_0000_0000_0000, base)
    modifies p
    ensures Is(c, p, c.group.Times(Num(scalar), base))
  {
    hide Is, Num, Curve.Law, Group.add, Group.neg, Group.Abelian, Group.Times, CombTable, BothCombed;
    c.NeutralLaw();
    var sScalar := SignedForm(scalar);
    ghost var n := Num(sScalar);
    GeZero(p);
    ZeroRow(c, p, n, base);
    AddRow(p, low, high, sScalar, 31, lowCoords, highCoords, c, base);
    var i := 30;
    while i >= 0
      invariant -1 <= i <= 30
      invariant Is(c, p, c.group.Times(BothCombed(n, i + 1), base))
    {
      Twice(p, c, c.group.Times(BothCombed(n, i + 1), base));
      c.group.TimesAdd(BothCombed(n, i + 1), BothCombed(n, i + 1), base);
      AddRow(p, low, high, sScalar, i, lowCoords, highCoords, c, base);
      i := i - 1;
    }
    SameMultiple(c.group, scalar, n, base);
  }

  method SignedForm(scalar: seq<u8>) returns (sScalar: seq<u8>)
    requires |scalar| == 32
    ensures |sScalar| == 32 && Num(sScalar) == (Num(scalar) * HALF + ONES) % ScalarL.L
  {
    hide Val;
    HalfConstants();
    var r := ScalarL.EddsaMulAdd(scalar, HALF_MOD_L, HALF_ONES);
    sScalar := r[..];
  }

  lemma ZeroRow<G(!new)>(c: Curve<G>, p: Ge, n: nat, base: G)
    requires c.Law() && p.Bounded() && p.Coords() == NEUTRAL
    ensures Is(c, p, c.group.Times(2 * BothCombed(n, 32), base))
  {
    hide Curve.Law, Group.Abelian, Combed;
    c.NeutralLaw();
    CombedNothing(n, 0);
    CombedNothing(n, 128);
  }

  lemma SameMultiple<G(!new)>(group: Group<G>, scalar: seq<u8>, n: nat, base: G)
    requires group.Abelian() && group.Times(ScalarL.L, base) == group.zero
    requires n == (Num(scalar) * HALF + ONES) % ScalarL.L
    ensures group.Times(BothCombed(n, 0), base) == group.Times(Num(scalar), base)
  {
    hide P2, Num, BothCombed, Group.Abelian, Group.Times;
    Powers32To256();
    BothCombedAll(n);
    SignedFormIsCongruent(Num(scalar), n);
    var q: int :| 2 * n - (P2(256) - 1) == Num(scalar) + q * ScalarL.L;
    group.TimesOrder(Num(scalar), ScalarL.L, q, base);
  }
}
