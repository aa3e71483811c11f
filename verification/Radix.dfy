// Positional notation, least significant digit first. The same definition
// reads limbs (base 2^32), bytes (base 2^8) and bits (base 2).
module Radix {

  function Pow(b: nat, n: nat): nat {
    if n == 0 then 1 else b * Pow(b, n - 1)
  }

  // The number that the digits s denote in base b.
  function Val(b: nat, s: seq<int>): int {
    if s == [] then 0 else s[0] + b * Val(b, s[1..])
  }

  lemma Empty(b: nat)
    ensures Val(b, []) == 0 && Pow(b, 0) == 1
  {
  }

  ghost predicate Digits(b: nat, s: seq<int>) {
    forall i | 0 <= i < |s| :: 0 <= s[i] < b
  }

  lemma {:induction false} PowAdd(b: nat, m: nat, n: nat)
    ensures Pow(b, m + n) == Pow(b, m) * Pow(b, n)
  {
    if m > 0 {
      PowAdd(b, m - 1, n);
      MulAssoc(b, Pow(b, m - 1), Pow(b, n));
    }
  }

  lemma MulAssoc(x: int, y: int, z: int)
    ensures x * (y * z) == (x * y) * z
  {
  }

  lemma {:induction false} PowPositive(b: nat, n: nat)
    requires b > 0
    ensures Pow(b, n) > 0
  {
    if n > 0 {
      PowPositive(b, n - 1);
    }
  }

  lemma {:induction false} ValConcat(b: nat, s: seq<int>, t: seq<int>)
    ensures Val(b, s + t) == Val(b, s) + Pow(b, |s|) * Val(b, t)
  {
    if s == [] {
      assert s + t == t;
    } else {
      assert (s + t)[1..] == s[1..] + t;
      ValConcat(b, s[1..], t);
      Carried(b, Val(b, s[1..]), Pow(b, |s| - 1), Val(b, t));
    }
  }

  lemma Carried(b: int, v: int, q: int, w: int)
    ensures b * (v + q * w) == b * v + (b * q) * w
  {
    MulAssoc(b, q, w);
  }

  lemma ValSplit(b: nat, s: seq<int>, k: nat)
    requires k <= |s|
    ensures Val(b, s) == Val(b, s[..k]) + Pow(b, k) * Val(b, s[k..])
  {
    assert s == s[..k] + s[k..];
    ValConcat(b, s[..k], s[k..]);
  }

  // Appending one digit on the most significant side.
  lemma ValSnoc(b: nat, s: seq<int>, d: int)
    ensures Val(b, s + [d]) == Val(b, s) + Pow(b, |s|) * d
  {
    ValConcat(b, s, [d]);
    assert [d][1..] == [];
    assert Val(b, [d]) == d + b * 0;
  }

  // One digit more of a longer number.
  lemma ValTake(b: nat, s: seq<int>, i: nat)
    requires i < |s|
    ensures Val(b, s[..i + 1]) == Val(b, s[..i]) + Pow(b, i) * s[i]
  {
    ValSnoc(b, s[..i], s[i]);
    assert s[..i + 1] == s[..i] + [s[i]];
  }

  lemma MulMonotone(b: int, x: int, y: int)
    requires 0 <= b && x <= y
    ensures b * x <= b * y
  {
  }

  // Bitwise or.
  function Or(a: nat, b: nat): nat
    decreases a + b
  {
    if a == 0 && b == 0 then 0
    else (if a % 2 == 1 || b % 2 == 1 then 1 else 0) + 2 * Or(a / 2, b / 2)
  }

  lemma {:induction false} OrIsZero(a: nat, b: nat)
    ensures Or(a, b) == 0 <==> a == 0 && b == 0
    decreases a + b
  {
    if (a > 0 || b > 0) && a % 2 == 0 && b % 2 == 0 {
      OrIsZero(a / 2, b / 2);
    }
  }

  lemma {:induction false} OrZero(b: nat)
    ensures Or(0, b) == b
  {
    if b > 0 {
      OrZero(b / 2);
    }
  }

  // What is left of a number when its lowest digits are taken off.
  lemma ValTail(b: nat, s: seq<int>, i: nat)
    requires i < |s|
    ensures Val(b, s[i..]) == s[i] + b * Val(b, s[i + 1..])
  {
    assert s[i..][1..] == s[i + 1..];
  }

  lemma Quotient(n: int, d: int, q: int, r: int)
    requires d > 0 && n == d * q + r && 0 <= r < d
    ensures n / d == q && n % d == r
  {
    var k := n / d - q;
    assert d * k == r - n % d;
    if k >= 1 {
      MulMonotone(d, 1, k);
    } else if k <= -1 {
      MulMonotone(d, k, -1);
    }
  }

  // n digits denote a number in [0, b^n).
  lemma {:induction false} ValBound(b: nat, s: seq<int>)
    requires Digits(b, s)
    ensures 0 <= Val(b, s) < Pow(b, |s|)
  {
    if s != [] {
      assert 0 <= s[0] < b;
      ValBound(b, s[1..]);
      DigitBelow(b, s[0], Val(b, s[1..]), Pow(b, |s| - 1));
    }
  }

  lemma DigitBelow(b: int, d: int, v: int, p: int)
    requires 0 <= d < b && 0 <= v < p
    ensures 0 <= d + b * v < b * p
  {
    MulMonotone(b, 0, v);
    MulMonotone(b, v + 1, p);
    assert b * (v + 1) == b * v + b;
  }

  lemma LowDigit(b: nat, d: int, e: int, v: int, w: int)
    requires 0 <= d < b && 0 <= e < b && d + b * v == e + b * w
    ensures d == e && v == w
  {
    if v < w {
      MulMonotone(b, v + 1, w);
    } else if w < v {
      MulMonotone(b, w + 1, v);
    }
  }

  // The digits of a number are unique at a given length.
  lemma {:induction false} ValInjective(b: nat, s: seq<int>, t: seq<int>)
    requires Digits(b, s) && Digits(b, t) && |s| == |t|
    requires Val(b, s) == Val(b, t)
    ensures s == t
  {
    if s != [] {
      LowDigit(b, s[0], t[0], Val(b, s[1..]), Val(b, t[1..]));
      ValInjective(b, s[1..], t[1..]);
      assert s == [s[0]] + s[1..] && t == [t[0]] + t[1..];
    }
  }

  lemma {:induction false} ValZeros(b: nat, s: seq<int>)
    requires forall i | 0 <= i < |s| :: s[i] == 0
    ensures Val(b, s) == 0
  {
    if s != [] {
      ValZeros(b, s[1..]);
    }
  }
}
