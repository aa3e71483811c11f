// Field elements against their 32-byte encodings:
// src/ota/monocypher.c:1152-1227 and 1360-1381.
module FieldBytes {
  import opened Machine
  import opened Radix
  import opened Bytes
  import opened Field25519

  function Load24(s: seq<u8>, i: nat): (w: int)
    requires i + 3 <= |s|
    ensures 0 <= w < 0x100_0000
  {
    s[i] + 0x100 * (s[i + 1] as int) + 0x1_0000 * (s[i + 2] as int)
  }

  function Load32(s: seq<u8>, i: nat): (w: int)
    requires i + 4 <= |s|
    ensures 0 <= w < TWO32
  {
    Word(s[i], s[i + 1], s[i + 2], s[i + 3])
  }

  // Taking three or four bytes off the bottom of what is left.
  lemma Peel24(s: seq<u8>, i: nat)
    requires i + 3 <= |s|
    ensures Val(TWO8, s[i..]) == Load24(s, i) + 0x100_0000 * Val(TWO8, s[i + 3..])
  {
    hide Val;
    ValTail(TWO8, s, i);
    ValTail(TWO8, s, i + 1);
    ValTail(TWO8, s, i + 2);
  }

  lemma Peel32(s: seq<u8>, i: nat)
    requires i + 4 <= |s|
    ensures Val(TWO8, s[i..]) == Load32(s, i) + TWO32 * Val(TWO8, s[i + 4..])
  {
    hide Val;
    ValTail(TWO8, s, i);
    ValTail(TWO8, s, i + 1);
    ValTail(TWO8, s, i + 2);
    ValTail(TWO8, s, i + 3);
  }

  // The ten loads of fe_frombytes_mask cover the 32 bytes without overlap.
  lemma BytesAsLoads(s: seq<u8>)
    requires |s| == 32
    ensures Val(TWO8, s)
         == Value(Load32(s, 0), Load24(s, 4) * 0x40, Load24(s, 7) * 0x20, Load24(s, 10) * 8, Load24(s, 13) * 4,
                  Load32(s, 16), Load24(s, 20) * 0x80, Load24(s, 23) * 0x20, Load24(s, 26) * 0x10,
                  Load24(s, 29) * 4)
  {
    hide Val, Load24, Load32;
    Peel32(s, 0);
    Peel24(s, 4);
    Peel24(s, 7);
    Peel24(s, 10);
    Peel24(s, 13);
    Peel32(s, 16);
    Peel24(s, 20);
    Peel24(s, 23);
    Peel24(s, 26);
    Peel24(s, 29);
    assert s[0..] == s && s[32..] == [];
    Empty(TWO8);
  }

  // Masking the last load clears bit 255 and nothing else.
  lemma TopBitIgnored(v: int, rest: int, top: int)
    requires v == rest + 4 * E9 * top && 0 <= rest < 4 * E9 && 0 <= top < 0x100_0000
    ensures v % TWO255 == rest + 4 * E9 * (top % 0x80_0000)
  {
    var high := top / 0x80_0000;
    assert top == top % 0x80_0000 + 0x80_0000 * high;
    assert 4 * E9 * 0x80_0000 == TWO255;
    assert v == rest + 4 * E9 * (top % 0x80_0000) + TWO255 * high;
  }

  // fe_frombytes: the top bit of s is ignored.
  method FeFromBytes(s: seq<u8>) returns (h: Fe)
    requires |s| == 32
    ensures Tight(h) && Congruent(FeVal(h), Val(TWO8, s) % TWO255)
  {
    hide Val, Load24, Load32;
    var top := Load24(s, 29) % 0x80_0000;
    ghost var wrapped;
    h, wrapped := FeCarry(Load32(s, 0), Load24(s, 4) * 0x40, Load24(s, 7) * 0x20, Load24(s, 10) * 8,
                          Load24(s, 13) * 4, Load32(s, 16), Load24(s, 20) * 0x80, Load24(s, 23) * 0x20,
                          Load24(s, 26) * 0x10, top * 4);
    BytesAsLoads(s);
    TopBitIgnored(Val(TWO8, s), Val(TWO8, s) - 4 * E9 * Load24(s, 29), Load24(s, 29));
    CongruentBy(Val(TWO8, s) % TWO255, FeVal(h), wrapped);
  }

  // Floor division of a tight limb plus a small carry by 2^26 and 2^25.
  function Shift26(t: i32, q: i32): (r: i32)
    requires -36909875 <= t <= 36909875 && -19 <= q <= 16
    ensures -1 <= r <= 0 && 0 <= q + t - r * 0x400_0000 < 0x400_0000
  {
    (q + t) / 0x400_0000
  }

  function Shift25(t: i32, q: i32): (r: i32)
    requires -18454937 <= t <= 18454937 && -19 <= q <= 16
    ensures -1 <= r <= 0 && 0 <= q + t - r * 0x200_0000 < 0x200_0000
  {
    (q + t) / 0x200_0000
  }

  // The most significant limb decides the sign, and the rounding term agrees
  // with it, so adding it never changes on which side of zero h lies.
  lemma RoundingKeepsSign(h: Fe, q0: int, q10: int)
    requires Tight(h)
    requires 0 <= 19 * h.t9 + 0x100_0000 - q0 * 0x200_0000 < 0x200_0000
    requires 0 <= FeVal(h) + q0 - TWO255 * q10 < TWO255
    ensures q10 == if FeVal(h) < 0 then -1 else 0
  {
  }

  // A chain of floor divisions, one limb at a time, is one floor division.
  lemma ChainOfShifts(h: Fe, q0: int, q1: int, q2: int, q3: int, q4: int, q5: int,
                      q6: int, q7: int, q8: int, q9: int, q10: int)
    requires 0 <= q0 + h.t0 - q1 * 0x400_0000 < 0x400_0000 && 0 <= q1 + h.t1 - q2 * 0x200_0000 < 0x200_0000
    requires 0 <= q2 + h.t2 - q3 * 0x400_0000 < 0x400_0000 && 0 <= q3 + h.t3 - q4 * 0x200_0000 < 0x200_0000
    requires 0 <= q4 + h.t4 - q5 * 0x400_0000 < 0x400_0000 && 0 <= q5 + h.t5 - q6 * 0x200_0000 < 0x200_0000
    requires 0 <= q6 + h.t6 - q7 * 0x400_0000 < 0x400_0000 && 0 <= q7 + h.t7 - q8 * 0x200_0000 < 0x200_0000
    requires 0 <= q8 + h.t8 - q9 * 0x400_0000 < 0x400_0000 && 0 <= q9 + h.t9 - q10 * 0x200_0000 < 0x200_0000
    ensures 0 <= FeVal(h) + q0 - TWO255 * q10 < TWO255
    ensures FeVal(h) + q0 - TWO255 * q10
         == Value(q0 + h.t0 - q1 * 0x400_0000, q1 + h.t1 - q2 * 0x200_0000,
                  q2 + h.t2 - q3 * 0x400_0000, q3 + h.t3 - q4 * 0x200_0000,
                  q4 + h.t4 - q5 * 0x400_0000, q5 + h.t5 - q6 * 0x200_0000,
                  q6 + h.t6 - q7 * 0x400_0000, q7 + h.t7 - q8 * 0x200_0000,
                  q8 + h.t8 - q9 * 0x400_0000, q9 + h.t9 - q10 * 0x200_0000)
  {
  }

  function RoundedTop(t9: i32): (q: i32)
    requires -18454937 <= t9 <= 18454937
    ensures -16 <= q <= 16 && 0 <= 19 * t9 + 0x100_0000 - q * 0x200_0000 < 0x200_0000
  {
    (19 * t9 + 0x100_0000) / 0x200_0000
  }

  // -1 when h is negative, 0 otherwise.
  method SignOf(h: Fe) returns (q: i32)
    requires Tight(h)
    ensures q == if FeVal(h) < 0 then -1 else 0
  {
    hide Shift25, Shift26, RoundedTop, Value, FeVal;
    q := RoundedTop(h.t9);
    ghost var q0 := q;
    q := Shift26(h.t0, q);
    ghost var q1 := q;
    q := Shift25(h.t1, q);
    ghost var q2 := q;
    q := Shift26(h.t2, q);
    ghost var q3 := q;
    q := Shift25(h.t3, q);
    ghost var q4 := q;
    q := Shift26(h.t4, q);
    ghost var q5 := q;
    q := Shift25(h.t5, q);
    ghost var q6 := q;
    q := Shift26(h.t6, q);
    ghost var q7 := q;
    q := Shift25(h.t7, q);
    ghost var q8 := q;
    q := Shift26(h.t8, q);
    ghost var q9 := q;
    q := Shift25(h.t9, q);
    ghost var q10 := q;
    ChainOfShifts(h, q0, q1, q2, q3, q4, q5, q6, q7, q8, q9, q10);
    RoundingKeepsSign(h, q0, q10);
  }

  // h + 19 * q, cut to 255 bits and spread over limbs of exactly 26 and 25 bits.
  method Reduce(h: Fe, q: i32) returns (r: Fe, ghost excess: int)
    requires Tight(h) && -1 <= q <= 0
    ensures InRange(r)
    ensures FeVal(r) == FeVal(h) + 19 * q - TWO255 * excess
    ensures 0 <= FeVal(r) < TWO255
  {
    hide Shift25, Shift26, Value;
    var q0: i32 := q * 19;
    var q1 := Shift26(h.t0, q0);
    var q2 := Shift25(h.t1, q1);
    var q3 := Shift26(h.t2, q2);
    var q4 := Shift25(h.t3, q3);
    var q5 := Shift26(h.t4, q4);
    var q6 := Shift25(h.t5, q5);
    var q7 := Shift26(h.t6, q6);
    var q8 := Shift25(h.t7, q7);
    var q9 := Shift26(h.t8, q8);
    var q10 := Shift25(h.t9, q9);
    r := Fe(q0 + h.t0 - q1 * 0x400_0000, q1 + h.t1 - q2 * 0x200_0000,
            q2 + h.t2 - q3 * 0x400_0000, q3 + h.t3 - q4 * 0x200_0000,
            q4 + h.t4 - q5 * 0x400_0000, q5 + h.t5 - q6 * 0x200_0000,
            q6 + h.t6 - q7 * 0x400_0000, q7 + h.t7 - q8 * 0x200_0000,
            q8 + h.t8 - q9 * 0x400_0000, q9 + h.t9 - q10 * 0x200_0000);
    excess := q10;
    ChainOfShifts(h, q0, q1, q2, q3, q4, q5, q6, q7, q8, q9, q10);
  }

  predicate InRange(r: Fe) {
    && 0 <= r.t0 < 0x400_0000 && 0 <= r.t1 < 0x200_0000
    && 0 <= r.t2 < 0x400_0000 && 0 <= r.t3 < 0x200_0000
    && 0 <= r.t4 < 0x400_0000 && 0 <= r.t5 < 0x200_0000
    && 0 <= r.t6 < 0x400_0000 && 0 <= r.t7 < 0x200_0000
    && 0 <= r.t8 < 0x400_0000 && 0 <= r.t9 < 0x200_0000
  }

  // The eight words store32_le writes. Bits shifted past the top of a word are
  // lost there and picked up by the next one.
  method PackWords(t: Fe) returns (w: array<u32>)
    requires InRange(t)
    ensures fresh(w) && w.Length == 8
    ensures Val(TWO32, w[..]) == FeVal(t)
  {
    w := new u32[8];
    w[0] := t.t0 + t.t1 % 0x40 * 0x400_0000;
    w[1] := t.t1 / 0x40 + t.t2 % 0x2000 * 0x8_0000;
    w[2] := t.t2 / 0x2000 + t.t3 % 0x8_0000 * 0x2000;
    w[3] := t.t3 / 0x8_0000 + t.t4 * 0x40;
    w[4] := t.t5 + t.t6 % 0x80 * 0x200_0000;
    w[5] := t.t6 / 0x80 + t.t7 % 0x2000 * 0x8_0000;
    w[6] := t.t7 / 0x2000 + t.t8 % 0x10_0000 * 0x1000;
    w[7] := t.t8 / 0x10_0000 + t.t9 * 0x40;
    EightWords(w[..]);
    Packing(t);
  }

  lemma EightWords(w: seq<int>)
    requires |w| == 8
    ensures Val(TWO32, w) == Horner8(w[0], w[1], w[2], w[3], w[4], w[5], w[6], w[7])
  {
    hide Val;
    ValTail(TWO32, w, 0);
    ValTail(TWO32, w, 1);
    ValTail(TWO32, w, 2);
    ValTail(TWO32, w, 3);
    ValTail(TWO32, w, 4);
    ValTail(TWO32, w, 5);
    ValTail(TWO32, w, 6);
    ValTail(TWO32, w, 7);
    assert w[0..] == w && w[8..] == [];
    Empty(TWO32);
  }

  function Horner8(a: int, b: int, c: int, d: int, e: int, f: int, g: int, h: int): int {
    a + TWO32 * (b + TWO32 * (c + TWO32 * (d + TWO32 * (e + TWO32 * (f + TWO32 * (g + TWO32 * h))))))
  }

  lemma Packing(t: Fe)
    ensures Horner8(t.t0 + t.t1 % 0x40 * 0x400_0000,
                    t.t1 / 0x40 + t.t2 % 0x2000 * 0x8_0000,
                    t.t2 / 0x2000 + t.t3 % 0x8_0000 * 0x2000,
                    t.t3 / 0x8_0000 + t.t4 * 0x40,
                    t.t5 + t.t6 % 0x80 * 0x200_0000,
                    t.t6 / 0x80 + t.t7 % 0x2000 * 0x8_0000,
                    t.t7 / 0x2000 + t.t8 % 0x10_0000 * 0x1000,
                    t.t8 / 0x10_0000 + t.t9 * 0x40) == FeVal(t)
  {
  }

  // fe_tobytes: the one representative in [0, P), for negative h as well.
  method FeToBytes(h: Fe) returns (s: array<u8>)
    requires Tight(h)
    ensures fresh(s) && s.Length == 32
    ensures Val(TWO8, s[..]) == FeVal(h) % P
  {
    hide Val, Value;
    var q := SignOf(h);
    TightBelowP(h);
    var r, excess := Reduce(h, q);
    var w := PackWords(r);
    s := Store32LeBuf(w);
    Representative(FeVal(h), q, FeVal(r), excess);
  }

  lemma TightBelowP(h: Fe)
    requires Tight(h)
    ensures -P < FeVal(h) < P
  {
  }

  lemma Representative(v: int, q: int, r: int, excess: int)
    requires -P < v < P && q == if v < 0 then -1 else 0
    requires r == v + 19 * q - TWO255 * excess && 0 <= r < TWO255
    ensures r == v % P
  {
    assert excess == q;
  }

  // Decoding and encoding again: any 32 bytes come back as the canonical form
  // of what they say below their top bit, and canonical bytes as themselves.
  method DecodeThenEncode(s: seq<u8>) returns (t: seq<u8>)
    requires |s| == 32
    ensures |t| == 32 && Val(TWO8, t) == Val(TWO8, s) % TWO255 % P
    ensures Val(TWO8, s) < P ==> t == s
  {
    hide Val, FeVal, Tight;
    var h := FeFromBytes(s);
    var bytes := FeToBytes(h);
    t := bytes[..];
    ValBound(TWO8, s);
    if Val(TWO8, s) < P {
      SmallIsItself(Val(TWO8, s));
      ValInjective(TWO8, t, s);
    }
  }

  lemma SmallIsItself(v: int)
    requires 0 <= v < P
    ensures v % TWO255 % P == v
  {
  }

  lemma LowBit(s: seq<int>)
    requires s != []
    ensures Val(TWO8, s) % 2 == s[0] % 2
  {
    EvenOffset(s[0], 0x80 * Val(TWO8, s[1..]));
  }

  lemma EvenOffset(a: int, k: int)
    ensures (a + 2 * k) % 2 == a % 2
  {
  }

  // fe_isodd: the parity of the representative in [0, P).
  method FeIsOdd(f: Fe) returns (odd: int)
    requires Tight(f)
    ensures odd == FeVal(f) % P % 2
  {
    var s := FeToBytes(f);
    LowBit(s[..]);
    odd := s[0] % 2;
  }

  // fe_isequal: comparing encodings decides congruence.
  method FeIsEqual(f: Fe, g: Fe) returns (equal: bool)
    requires Tight(f) && Tight(g)
    ensures equal <==> Congruent(FeVal(f), FeVal(g))
  {
    var fs := FeToBytes(f);
    var gs := FeToBytes(g);
    equal := true;
    for i := 0 to 32
      invariant equal <==> fs[..i] == gs[..i]
    {
      assert fs[..i + 1] == fs[..i] + [fs[i]] && gs[..i + 1] == gs[..i] + [gs[i]];
      equal := equal && fs[i] == gs[i];
    }
    assert fs[..32] == fs[..] && gs[..32] == gs[..];
    if Congruent(FeVal(f), FeVal(g)) {
      ValInjective(TWO8, fs[..], gs[..]);
    }
  }
}
