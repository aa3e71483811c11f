// Positional notation, most significant digit first.
module BigEndian {
  import opened Radix

  function BE(b: nat, s: seq<int>): int {
    if s == [] then 0 else b * BE(b, s[..|s| - 1]) + s[|s| - 1]
  }

  lemma BESnoc(b: nat, s: seq<int>, d: int)
    ensures BE(b, s + [d]) == b * BE(b, s) + d
  {
    assert (s + [d])[..|s|] == s;
  }

  lemma {:induction false} BEConcat(b: nat, s: seq<int>, t: seq<int>)
    ensures BE(b, s + t) == BE(b, s) * Pow(b, |t|) + BE(b, t)
  {
    if t == [] {
      assert s + t == s;
    } else {
      var k := |t| - 1;
      assert (s + t)[..|s + t| - 1] == s + t[..k];
      BEConcat(b, s, t[..k]);
      MulRotate(b, BE(b, s), Pow(b, k));
      Distribute(b, BE(b, s) * Pow(b, k), BE(b, t[..k]));
    }
  }

  lemma MulRotate(b: int, x: int, p: int)
    ensures b * (x * p) == x * (b * p)
  {
  }

  lemma Distribute(b: int, x: int, y: int)
    ensures b * (x + y) == b * x + b * y
  {
  }

  lemma {:induction false} BEBound(b: nat, s: seq<int>)
    requires Digits(b, s)
    ensures 0 <= BE(b, s) < Pow(b, |s|)
  {
    if s != [] {
      var k := |s| - 1;
      BEBound(b, s[..k]);
      assert 0 <= s[k] < b;
      MulMonotone(b, 0, BE(b, s[..k]));
      MulMonotone(b, BE(b, s[..k]) + 1, Pow(b, k));
      Distribute(b, BE(b, s[..k]), 1);
    }
  }

  lemma {:induction false} BEInjective(b: nat, s: seq<int>, t: seq<int>)
    requires Digits(b, s) && Digits(b, t) && |s| == |t| && BE(b, s) == BE(b, t)
    ensures s == t
  {
    if s != [] {
      var k := |s| - 1;
      LowDigit(b, s[k], t[k], BE(b, s[..k]), BE(b, t[..k]));
      BEInjective(b, s[..k], t[..k]);
      assert s == s[..k] + [s[k]] && t == t[..k] + [t[k]];
    }
  }
}
