// Incremental signed sliding windows, left to right:
// src/ota/monocypher.c:1510-1514 and 1938-1994.
module SlidingWindow {
  import opened Machine
  import opened Radix

  // ---- Bits of a number ----

  function P2(i: nat): (p: int)
    ensures p > 0
  {
    PowPositive(2, i);
    Pow(2, i)
  }

  lemma P2Add(a: nat, b: nat)
    ensures P2(a + b) == P2(a) * P2(b)
  {
    PowAdd(2, a, b);
  }

  lemma P2Step(i: nat)
    ensures P2(0) == 1 && P2(i + 1) == 2 * P2(i)
  {
  }

  function Bit(n: nat, i: int): (b: int)
    ensures 0 <= b <= 1
  {
    if i < 0 then 0 else n / P2(i) % 2
  }

  // n / 2^k, rounded up when the bit below says so. What windows starting at
  // position k and above have to add up to.
  function Rounded(n: nat, k: nat): int {
    n / P2(k) + Bit(n, k - 1)
  }

  lemma DivMul(n: nat, x: nat, y: nat)
    requires x > 0 && y > 0
    ensures n / (x * y) == (n / x) / y
  {
    var m := n / x;
    var q, r := m / y, m % y;
    assert n == x * (y * q + r) + n % x;
    assert x * (y * q + r) == (x * y) * q + x * r;
    MulMonotone(x, r, y - 1);
    MulMonotone(x, 0, r);
    Quotient(n, x * y, q, x * r + n % x);
  }

  lemma DivPow(n: nat, a: nat, b: nat)
    ensures n / P2(a + b) == (n / P2(a)) / P2(b)
  {
    PowAdd(2, a, b);
    DivMul(n, P2(a), P2(b));
  }

  // The bits of n from lo up are the bits of n / 2^lo.
  lemma BitAbove(n: nat, lo: nat, j: nat)
    ensures Bit(n, lo + j) == Bit(n / P2(lo), j)
  {
    DivPow(n, lo, j);
  }

  lemma OneBitMore(m: nat, j: nat)
    ensures P2(j + 1) == 2 * P2(j)
    ensures m % P2(j + 1) == m % P2(j) + Bit(m, j) * P2(j)
    ensures m / P2(j) == 2 * (m / P2(j + 1)) + Bit(m, j)
  {
    var p := P2(j);
    DivPow(m, j, 1);
    assert P2(1) == 2;
    var q := m / p;
    var b := q % 2;
    assert m == p * q + m % p;
    assert p * q == (2 * p) * (q / 2) + p * b by {
      assert q == 2 * (q / 2) + b;
    }
    MulMonotone(p, b, 1);
    MulMonotone(p, 0, b);
    Quotient(m, 2 * p, q / 2, p * b + m % p);
  }

  // ---- Bits of a byte string ----

  function ScalarBit(s: seq<u8>, i: int): int
    requires i < 8 * |s|
  {
    if i < 0 then 0 else s[i / 8] / P2(i % 8) % 2
  }

  lemma BytePower(k: nat)
    ensures Pow(TWO8, k) == P2(8 * k)
    decreases k
  {
    if k > 0 {
      BytePower(k - 1);
      PowAdd(2, 8, 8 * (k - 1));
      assert P2(8) == 0x100 by {
        assert P2(4) == 16;
        PowAdd(2, 4, 4);
      }
    }
  }

  lemma ScalarBitIsBit(s: seq<u8>, i: int)
    requires i < 8 * |s|
    ensures Val(TWO8, s) >= 0 && ScalarBit(s, i) == Bit(Val(TWO8, s), i)
  {
    hide Val, Pow;
    ValBound(TWO8, s);
    if i >= 0 {
      var k, j := i / 8, i % 8;
      var n := Val(TWO8, s);
      var high := Val(TWO8, s[k + 1..]);
      ValSplit(TWO8, s, k);
      ValBound(TWO8, s[..k]);
      ValBound(TWO8, s[k + 1..]);
      FirstByte(s, k);
      BytePower(k);
      Quotient(n, P2(8 * k), s[k] + 0x100 * high, Val(TWO8, s[..k]));
      DivPow(n, 8 * k, j);
      BitsOfLowByte(s[k], high, j);
    }
  }

  lemma FirstByte(s: seq<u8>, k: nat)
    requires k < |s|
    ensures Val(TWO8, s[k..]) == s[k] + 0x100 * Val(TWO8, s[k + 1..])
  {
    assert s[k..][1..] == s[k + 1..];
  }

  lemma BitsOfLowByte(b: u8, high: nat, j: nat)
    requires j < 8
    ensures (b + 0x100 * high) / P2(j) % 2 == b / P2(j) % 2
  {
    assert P2(4) == 16;
    hide Pow, P2;
    P2Add(j, 8 - j);
    P2Add(4, 4);
    P2Step(7 - j);
    var p, h := P2(j), P2(7 - j) * high;
    assert 0x100 * high == p * (2 * h) by {
      MulAssoc(p, 2 * P2(7 - j), high);
    }
    Quotient(b + 0x100 * high, p, b / p + 2 * h, b % p);
  }

  // ---- Windows ----

  lemma NextRounded(n: nat, i: nat)
    ensures Rounded(n, i) == 2 * Rounded(n, i + 1) + Bit(n, i - 1) - Bit(n, i)
  {
    OneBitMore(n, i);
  }

  // The value of the window that starts at lo and has w bits, its top bit
  // negative, with the bit below added in.
  ghost function WindowValue(n: nat, lo: nat, w: nat): int
    requires w > 0
  {
    n / P2(lo) % P2(w - 1) - Bit(n, lo + w - 1) * P2(w - 1) + Bit(n, lo - 1)
  }

  lemma WindowArithmetic(m: int, pw: int, half: int, q: int, b: int, low: int)
    requires m == pw * q + low + b * half && pw == 2 * half
    ensures m == pw * (q + b) + low - b * half
  {
  }

  lemma WindowAdvances(n: nat, lo: nat, w: nat)
    requires w > 0
    ensures Rounded(n, lo) == P2(w) * Rounded(n, lo + w) + WindowValue(n, lo, w)
  {
    hide Pow;
    var m := n / P2(lo);
    OneBitMore(m, w - 1);
    BitAbove(n, lo, w - 1);
    DivPow(n, lo, w);
    WindowArithmetic(m, P2(w), P2(w - 1), m / P2(w), Bit(m, w - 1), m % P2(w - 1));
  }

  // A window opens where two neighbouring bits differ, so its value is not zero
  // and has the sign of the lower of the two.
  lemma WindowRange(n: nat, lo: nat, w: nat)
    requires w > 0 && Bit(n, lo + w - 1) != Bit(n, lo + w - 2)
    ensures WindowValue(n, lo, w) != 0 && -P2(w - 1) <= WindowValue(n, lo, w) <= P2(w - 1)
  {
    var m := n / P2(lo);
    if w >= 2 {
      OneBitMore(m, w - 2);
      BitAbove(n, lo, w - 2);
      hide Bit;
      WindowBounds(m % P2(w - 1), m % P2(w - 2), Bit(n, lo + w - 1), Bit(n, lo + w - 2), P2(w - 2), Bit(n, lo - 1));
    }
  }

  lemma WindowBounds(low: int, lower: int, top: int, next: int, q: int, below: int)
    requires low == lower + next * q && 0 <= lower < q && 0 <= below <= 1
    requires (top == 0 && next == 1) || (top == 1 && next == 0)
    ensures -(2 * q) <= low - top * (2 * q) + below <= 2 * q
    ensures low - top * (2 * q) + below != 0
  {
  }

  // The low eight bits of a two's complement number. The masks below see no
  // others, and those of v & (~v + 1) depend on no others of v.
  function LowByte(v: int): (x: bv8)
    ensures x as int == v % 0x100
  {
    CastIsExact(v % 0x100);
    (v % 0x100) as bv8
  }

  lemma CastIsExact(n: nat)
    requires n < 0x100
    ensures (n as bv8) as int == n
  {
    var x := CountedUp(n);
    assert (x as int) as bv8 == x;
  }

  ghost function CountedUp(n: nat): (x: bv8)
    requires n < 0x100
    ensures x as int == n
  {
    if n == 0 then 0
    else
      var x := CountedUp(n - 1);
      OneMore(x);
      x + 1
  }

  lemma OneMore(x: bv8)
    requires x < 0xFF
    ensures (x + 1) as int == x as int + 1
  {
  }

  // v & (~v + 1): the lowest set bit.
  function LowestBit(v: int): bv8 {
    LowByte(v) & (!LowByte(v) + 1)
  }

  // log2 of a single bit, read off three masks.
  function Log2ByMasks(lsb: bv8): nat {
    (if lsb & 0xAA != 0 then 1 else 0) + (if lsb & 0xCC != 0 then 2 else 0) + (if lsb & 0xF0 != 0 then 4 else 0)
  }

  // v = d * 2^s with d odd and 2^s the lowest bit of v.
  ghost predicate OddPart(v: int, s: nat, d: int) {
    v == P2(s) * d && d % 2 == 1
  }

  lemma {:induction false} HasOddPart(v: int, k: nat) returns (s: nat, d: int)
    requires v != 0 && -P2(k) <= v <= P2(k)
    ensures s <= k && OddPart(v, s, d)
    ensures d == v / P2(s)
    ensures -P2(k - s) <= d <= P2(k - s)
    decreases k
  {
    hide Pow;
    P2Step(0);
    if v % 2 != 0 {
      s, d := 0, v;
    } else {
      if k > 0 {
        P2Step(k - 1);
      }
      var half := v / 2;
      s, d := HasOddPart(half, k - 1);
      DoubledProduct(v, half, P2(s), d);
      P2Step(s);
      s := s + 1;
      Quotient(v, P2(s), d, 0);
    }
  }

  lemma DoubledProduct(v: int, half: int, p: int, d: int)
    requires v == 2 * half && half == p * d
    ensures v == (2 * p) * d
  {
  }

  // ---- The incremental context ----

  class SlideCtx {
    var nextIndex: i16   // position of the next signed digit
    var nextDigit: i8    // the digit itself
    var nextCheck: u8    // where to look for a new window; wraps to 255 below 0

    // How many bits of the scalar have not been looked at.
    function Unread(): nat
      reads this
    {
      if nextCheck == 255 then 0 else nextCheck + 1
    }

    // What a found but not yet returned digit is worth.
    ghost function Pending(i: int): int
      reads this
    {
      if 0 <= nextIndex <= i then nextDigit * P2(nextIndex) else 0
    }

    // Before position i is processed: the digits returned so far, read as the
    // signed number acc, together with a pending one are the rounded upper part
    // of n; and the pending digit lies above everything still unread.
    ghost predicate Tracks(n: nat, acc: int, i: int)
      reads this
    {
      && -1 <= i <= 253 && (nextCheck <= 253 || nextCheck == 255) && Unread() <= i + 1
      && (0 <= nextIndex <= i ==> Unread() <= nextIndex)
      && acc * P2(i + 1) + Pending(i) == P2(Unread()) * Rounded(n, Unread())
    }

    ghost predicate SmallOddDigit(width: nat)
      requires width >= 2
      reads this
    {
      nextDigit % 2 == 1 && -P2(width - 1) < nextDigit < P2(width - 1)
    }

    // slide_init. Bits 253 and up are never tested.
    constructor Init(scalar: seq<u8>)
      requires |scalar| == 32 && Val(TWO8, scalar) < P2(253)
      ensures nextCheck <= 253
      ensures Val(TWO8, scalar) >= 0 && Tracks(Val(TWO8, scalar), 0, nextCheck)
      ensures forall i | nextCheck <= i <= 253 :: Tracks(Val(TWO8, scalar), 0, i)
      ensures SmallOddDigit(2)
    {
      hide Val, P2, Rounded;
      ValBound(TWO8, scalar);
      var i := TopBit(scalar);
      nextCheck := i + 1;
      nextIndex := -1;
      nextDigit := -1;
      new;
      NothingAbove(Val(TWO8, scalar), i + 1);
      P2Step(0);
    }

    // A window that opens at i: the digit in it becomes the pending one.
    method OpenWindow(width: nat, i: nat, scalar: seq<u8>, ghost n: nat, ghost acc: int)
      requires 2 <= width <= 8 && i == nextCheck && |scalar| == 32 && n == Val(TWO8, scalar)
      requires Tracks(n, acc, i) && Bit(n, i) != Bit(n, i - 1)
      modifies this
      ensures Tracks(n, acc, i) && SmallOddDigit(width) && Unread() <= i
    {
      hide Val, Pow, P2, Rounded, Bit, WindowValue;
      var w, v := WindowAt(width, i, scalar, n);
      ghost var lo := i - w + 1;
      WindowRange(n, lo, w);
      var s, d := OddDigit(v, w, width);
      DigitWorth(n, acc, lo, w, s, d);
      hide OddPart;
      CheckMoves(nextCheck, w);
      nextIndex := i - (w - 1) + s;
      nextDigit := d;
      nextCheck := (nextCheck - w) % 0x100;
      assert Unread() == lo && nextIndex == lo + s;
    }

    // The first half of slide_step: look for a window at i, if this is where to.
    method Look(width: nat, i: nat, scalar: seq<u8>, ghost n: nat, ghost acc: int)
      requires 2 <= width <= 8 && |scalar| == 32 && n == Val(TWO8, scalar)
      requires Tracks(n, acc, i) && SmallOddDigit(width)
      modifies this
      ensures Tracks(n, acc, i) && SmallOddDigit(width) && Unread() <= i
    {
      hide Val, Pow, P2, Rounded, Bit;
      if i == nextCheck {
        ScalarBitIsBit(scalar, i);
        ScalarBitIsBit(scalar, i - 1);
        if ScalarBit(scalar, i) == ScalarBit(scalar, i - 1) {
          NextRounded(n, i);
          P2Step(i);
          NoWindow(acc, P2(i), Rounded(n, i + 1), Rounded(n, i));
          CheckMoves(nextCheck, 1);
          nextCheck := (nextCheck - 1) % 0x100;
          assert Unread() == i;
        } else {
          OpenWindow(width, i, scalar, n, acc);
        }
      }
    }

    // slide_step. The digit returned is zero or odd and below 2^(width-1); with
    // it appended, the digits so far still match the scalar.
    method Step(width: nat, i: nat, scalar: seq<u8>, ghost n: nat, ghost acc: int) returns (digit: int)
      requires 2 <= width <= 8 && |scalar| == 32 && n == Val(TWO8, scalar)
      requires Tracks(n, acc, i) && SmallOddDigit(width)
      modifies this
      ensures Tracks(n, 2 * acc + digit, i - 1) && SmallOddDigit(width)
      ensures digit == 0 || digit == nextDigit
    {
      hide Val, P2, Rounded, Bit;
      Look(width, i, scalar, n, acc);
      digit := if i == nextIndex then nextDigit else 0;
      P2Step(i);
      AppendDigit(acc, digit, P2(i));
    }

    // When the last position is done the digits spell out the scalar.
    lemma Finished(n: nat, acc: int)
      requires Tracks(n, acc, -1)
      ensures acc == n
    {
      P2Step(0);
    }
  }

  // The loop of slide_init.
  method TopBit(scalar: seq<u8>) returns (i: nat)
    requires |scalar| == 32 && Val(TWO8, scalar) < P2(253)
    ensures 0 <= i <= 252 && 0 <= Val(TWO8, scalar) < P2(i + 1)
  {
    hide Val, P2, ScalarBit, Bit;
    ValBound(TWO8, scalar);
    i := 252;
    while i > 0 && ScalarBit(scalar, i) == 0
      invariant 0 <= i <= 252 && Val(TWO8, scalar) < P2(i + 1)
    {
      ScalarBitIsBit(scalar, i);
      LeadingZero(Val(TWO8, scalar), i);
      i := i - 1;
    }
  }

  // The width of the window at i, shorter at the bottom of the scalar, and its
  // value.
  method WindowAt(width: nat, i: nat, scalar: seq<u8>, ghost n: nat) returns (w: nat, v: int)
    requires 2 <= width && i < 256 && |scalar| == 32 && n == Val(TWO8, scalar)
    ensures w == if width <= i + 1 then width else i + 1
    ensures v == WindowValue(n, i - w + 1, w)
  {
    hide Val, Pow, Bit, WindowValue;
    w := if width <= i + 1 then width else i + 1;
    ghost var lo := i - w + 1;
    ScalarBitIsBit(scalar, i);
    v := -(ScalarBit(scalar, i) * P2(w - 1));
    ghost var top := v;
    EmptyWindow(n, lo);
    for j := 0 to w - 1
      invariant v == top + n / P2(lo) % P2(j)
    {
      ScalarBitIsBit(scalar, i - (w - 1) + j);
      BitAbove(n, lo, j);
      OneBitMore(n / P2(lo), j);
      v := v + ScalarBit(scalar, i - (w - 1) + j) * P2(j);
    }
    ScalarBitIsBit(scalar, i - w);
    v := v + ScalarBit(scalar, i - w);
    WindowIs(n, lo, w, v);
  }

  // The wrap below zero is the one value that says nothing is left.
  lemma CheckMoves(check: u8, w: nat)
    requires check <= 253 && 0 < w <= check + 1
    ensures var next := (check - w) % 0x100;
            (next <= 253 || next == 255) && (if next == 255 then 0 else next + 1) == check + 1 - w
  {
  }

  // Shifts the zeros at the bottom of a window out: what is left is odd, and
  // fits the digit it is put into.
  method OddDigit(v: int, w: nat, width: nat) returns (s: nat, digit: i8)
    requires 0 < w <= width && 2 <= width <= 8 && v != 0 && -P2(w - 1) <= v <= P2(w - 1)
    ensures s <= w - 1 && OddPart(v, s, digit)
    ensures digit % 2 == 1 && -P2(width - 1) < digit < P2(width - 1)
  {
    hide Pow, P2, LowestBit, Log2ByMasks;
    ghost var s0, d := HasOddPart(v, w - 1);
    s := Log2ByMasks(LowestBit(v));
    MasksReadLog2(v, s0, d);
    OddDigitIsSmall(d, s, w, width);
    SmallPowers();
    P2Grows(width - 1, 7);
    digit := v / P2(s);
  }

  lemma DigitWorth(n: nat, acc: int, lo: nat, w: nat, s: nat, d: int)
    requires w > 0 && WindowValue(n, lo, w) == P2(s) * d
    requires acc * P2(lo + w) == P2(lo + w) * Rounded(n, lo + w)
    ensures acc * P2(lo + w) + d * P2(lo + s) == P2(lo) * Rounded(n, lo)
  {
    hide Pow, P2, Rounded, WindowValue;
    P2Add(lo, w);
    P2Add(lo, s);
    WindowAdvances(n, lo, w);
    WindowWorth(acc, P2(lo + w), Rounded(n, lo + w), P2(lo), P2(w), Rounded(n, lo), WindowValue(n, lo, w),
                P2(s), d);
  }

  lemma NoWindow(acc: int, p: int, upper: int, lower: int)
    requires acc * (2 * p) == (2 * p) * upper && lower == 2 * upper
    ensures acc * (2 * p) == p * lower
  {
  }

  lemma AppendDigit(acc: int, digit: int, p: int)
    ensures (2 * acc + digit) * p == acc * (2 * p) + digit * p
  {
  }

  lemma EmptyWindow(n: nat, lo: nat)
    ensures n / P2(lo) % P2(0) == 0
  {
  }

  lemma WindowIs(n: nat, lo: nat, w: nat, v: int)
    requires w > 0 && v == -(Bit(n, lo + w - 1) * P2(w - 1)) + n / P2(lo) % P2(w - 1) + Bit(n, lo - 1)
    ensures v == WindowValue(n, lo, w)
  {
  }

  lemma SmallPowers()
    ensures P2(0) == 1 && P2(1) == 2 && P2(2) == 4 && P2(3) == 8
    ensures P2(4) == 16 && P2(5) == 32 && P2(6) == 64 && P2(7) == 128
  {
    P2Step(0);
    P2Step(1);
    P2Step(2);
    P2Step(3);
    P2Step(4);
    P2Step(5);
    P2Step(6);
  }

  // p is the lowest set bit of x.
  ghost predicate Lowest(x: bv8, p: int) {
    p > 0 && x as int % (2 * p) == p
  }

  lemma LowHalf(x: bv8)
    ensures Lowest(x, 1) ==> x & (!x + 1) == 0x01
    ensures Lowest(x, 2) ==> x & (!x + 1) == 0x02
    ensures Lowest(x, 4) ==> x & (!x + 1) == 0x04
    ensures Lowest(x, 8) ==> x & (!x + 1) == 0x08
  {
  }

  lemma HighHalf(x: bv8)
    ensures Lowest(x, 16) ==> x & (!x + 1) == 0x10
    ensures Lowest(x, 32) ==> x & (!x + 1) == 0x20
    ensures Lowest(x, 64) ==> x & (!x + 1) == 0x40
    ensures Lowest(x, 128) ==> x & (!x + 1) == 0x80
  {
  }

  // The lowest set bit and the three masks find the power of two in v.
  lemma MasksReadLog2(v: int, s: nat, d: int)
    requires s <= 7 && OddPart(v, s, d)
    ensures Log2ByMasks(LowestBit(v)) == s
  {
    SmallPowers();
    LowestOf(v, P2(s), d);
    LowHalf(LowByte(v));
    HighHalf(LowByte(v));
  }

  lemma LowestOf(v: int, p: int, d: int)
    requires v == p * d && d % 2 == 1 && p in {1, 2, 4, 8, 16, 32, 64, 128}
    ensures Lowest(LowByte(v), p)
  {
    var k := 128 / p;
    var q := v / 0x100;
    assert v == 0x100 * q + v % 0x100;
    LowPart(v % 0x100, p, k, q, d / 2);
  }

  lemma LowPart(x: int, p: int, k: int, q: int, h: int)
    requires p > 0 && p * k == 128 && p * (2 * h + 1) == 0x100 * q + x
    ensures x % (2 * p) == p
  {
    assert x == (2 * p) * (h - k * q) + p by {
      Rearranged(x, p, k, q, h);
    }
    Quotient(x, 2 * p, h - k * q, p);
  }

  lemma Rearranged(x: int, p: int, k: int, q: int, h: int)
    requires p * k == 128 && p * (2 * h + 1) == 0x100 * q + x
    ensures x == (2 * p) * (h - k * q) + p
  {
    assert p * (2 * h + 1) == 2 * p * h + p;
    assert (2 * p) * (k * q) == 2 * (p * k) * q;
    assert (2 * p) * (h - k * q) == 2 * p * h - (2 * p) * (k * q);
  }

  lemma OddDigitIsSmall(d: int, s: nat, w: nat, width: nat)
    requires 0 < w <= width && width >= 2 && s <= w - 1
    requires d % 2 == 1 && -P2(w - 1 - s) <= d <= P2(w - 1 - s)
    ensures -P2(width - 1) < d < P2(width - 1)
  {
    hide Pow, P2;
    P2Grows(w - 1 - s, width - 1);
    P2Step(width - 2);
  }

  lemma {:induction false} P2Grows(a: nat, b: nat)
    requires a <= b
    ensures P2(a) <= P2(b) && (a < b ==> P2(a) < P2(b))
    decreases b
  {
    if a < b {
      P2Grows(a, b - 1);
      P2Step(b - 1);
    }
  }

  lemma WindowWorth(acc: int, above: int, upper: int, plo: int, pw: int, lower: int, v: int, ps: int, d: int)
    requires acc * above == above * upper && above == plo * pw
    requires lower == pw * upper + v && v == ps * d
    ensures acc * above + d * (plo * ps) == plo * lower
  {
    assert plo * lower == plo * (pw * upper) + plo * (ps * d);
    assert plo * (pw * upper) == (plo * pw) * upper;
    assert plo * (ps * d) == d * (plo * ps);
  }

  lemma LeadingZero(n: nat, i: nat)
    requires n < P2(i + 1) && Bit(n, i) == 0
    ensures n < P2(i)
  {
    P2Step(i);
    Quotient(n, P2(i + 1), 0, n);
    OneBitMore(n, i);
  }

  lemma NothingAbove(n: nat, i: nat)
    requires n < P2(i)
    ensures Rounded(n, i + 1) == 0
  {
    P2Step(i);
    Quotient(n, P2(i), 0, n);
    Quotient(n, P2(i + 1), 0, n);
  }
}
