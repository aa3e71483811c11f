// Merkle-Damgaard hashing as FIPS 180-4 defines it: a compression function,
// about which nothing is assumed, folded over the blocks of a padded message.
module HashBlocks {
  import opened Machine
  import opened Radix
  import opened BigEndian

  datatype Compression<!S(!new)> = Compression(f: (S, seq<u8>) -> S) {

    ghost function Step(h: S, data: seq<u8>): S {
      f(h, data)
    }

    // The chaining value after whole blocks of size bytes.
    ghost function Fold(h: S, bytes: seq<u8>, size: nat): S
      requires size > 0
    {
      if |bytes| < size then h
      else Step(Fold(h, bytes[..|bytes| - size], size), bytes[|bytes| - size..])
    }

    lemma FoldNothing(h: S, size: nat)
      requires size > 0
      ensures Fold(h, [], size) == h
    {
    }

    lemma FoldOneMore(h: S, bytes: seq<u8>, data: seq<u8>, size: nat)
      requires size > 0 && |data| == size
      ensures Fold(h, bytes + data, size) == Step(Fold(h, bytes, size), data)
    {
      assert (bytes + data)[..|bytes + data| - size] == bytes;
      assert (bytes + data)[|bytes + data| - size..] == data;
    }
  }

  function Zeros(n: nat): (z: seq<u8>)
    ensures |z| == n && forall i | 0 <= i < n :: z[i] == 0
  {
    seq(n, i => 0)
  }

  // v in n bytes, most significant first.
  function BigEndianBytes(v: nat, n: nat): (s: seq<u8>)
    ensures |s| == n
  {
    if n == 0 then [] else BigEndianBytes(v / 0x100, n - 1) + [v % 0x100]
  }

  lemma {:induction false} BigEndianByte(v: nat, n: nat, i: nat)
    requires i < n
    ensures Pow(TWO8, n - 1 - i) > 0 && BigEndianBytes(v, n)[i] == v / Pow(TWO8, n - 1 - i) % 0x100
  {
    PowPositive(TWO8, n - 1 - i);
    if i == n - 1 {
      assert v / 1 == v;
    } else {
      BigEndianByte(v / 0x100, n - 1, i);
      DivideByPower(v, Pow(TWO8, n - 2 - i));
    }
  }

  lemma DivideByPower(v: nat, p: nat)
    requires p > 0
    ensures v / (0x100 * p) == v / 0x100 / p
  {
    var m := v / 0x100;
    var q, r := m / p, m % p;
    assert v == (0x100 * p) * q + (0x100 * r + v % 0x100) by {
      MulAssoc(0x100, p, q);
    }
    Quotient(v, 0x100 * p, q, 0x100 * r + v % 0x100);
  }

  // Only the low n bytes matter.
  lemma {:induction false} BigEndianLow(v: nat, w: nat, n: nat)
    requires Pow(TWO8, n) > 0 && w == v % Pow(TWO8, n)
    ensures BigEndianBytes(w, n) == BigEndianBytes(v, n)
  {
    if n > 0 {
      var p := Pow(TWO8, n - 1);
      PowPositive(TWO8, n - 1);
      LowBytes(v, w, p);
      BigEndianLow(v / 0x100, w / 0x100, n - 1);
    }
  }

  lemma LowBytes(v: nat, w: nat, p: nat)
    requires p > 0 && w == v % (0x100 * p)
    ensures w % 0x100 == v % 0x100 && w / 0x100 == v / 0x100 % p
  {
    var q := v / (0x100 * p);
    assert v == 0x100 * (p * q) + w by {
      MulAssoc(0x100, p, q);
    }
    Quotient(v, 0x100, p * q + w / 0x100, w % 0x100);
    Quotient(w, 0x100 * p, 0, w);
    assert w / 0x100 < p;
    Quotient(v / 0x100, p, q, w / 0x100);
  }

  lemma {:induction false} BytesSplit(v: nat, a: nat, b: nat)
    requires Pow(TWO8, b) > 0
    ensures BigEndianBytes(v, a + b) == BigEndianBytes(v / Pow(TWO8, b), a) + BigEndianBytes(v, b)
  {
    if b == 0 {
      assert v / 1 == v;
    } else {
      PowPositive(TWO8, b - 1);
      DivideByPower(v, Pow(TWO8, b - 1));
      BytesSplit(v / 0x100, a, b - 1);
    }
  }

  lemma {:induction false} BytesSpell(v: nat, n: nat)
    requires Pow(TWO8, n) > 0
    ensures BE(TWO8, BigEndianBytes(v, n)) == v % Pow(TWO8, n)
  {
    if n > 0 {
      var p := Pow(TWO8, n - 1);
      PowPositive(TWO8, n - 1);
      LowBytes(v, v % (0x100 * p), p);
      BytesSpell(v / 0x100, n - 1);
      BESnoc(TWO8, BigEndianBytes(v / 0x100, n - 1), v % 0x100);
    }
  }

  lemma EightBytes()
    ensures Pow(TWO8, 8) == TWO64
  {
    assert Pow(TWO8, 0) == 1 && Pow(TWO8, 1) == 0x100 && Pow(TWO8, 2) == 0x1_0000;
    PowAdd(TWO8, 2, 2);
    PowAdd(TWO8, 4, 4);
  }

  // The zeros that make a message, a one bit and a length field of field bytes
  // end at a block boundary: sections 5.1.1 and 5.1.2 of FIPS 180-4.
  function ZeroCount(length: nat, size: nat, field: nat): nat
    requires size > 0
  {
    (-1 - length - field) % size
  }

  function Padding(length: nat, size: nat, field: nat): seq<u8>
    requires size > 0
  {
    [0x80] + Zeros(ZeroCount(length, size, field)) + BigEndianBytes(8 * length, field)
  }

  function Padded(m: seq<u8>, size: nat, field: nat): seq<u8>
    requires size > 0
  {
    m + Padding(|m|, size, field)
  }

  lemma {:induction false} ZerosSpell(bytes: seq<u8>, n: nat)
    ensures BE(TWO8, bytes + Zeros(n)) == BE(TWO8, bytes) * Pow(TWO8, n)
  {
    if n == 0 {
      assert bytes + Zeros(0) == bytes;
    } else {
      ZerosSpell(bytes, n - 1);
      assert bytes + Zeros(n) == (bytes + Zeros(n - 1)) + [0];
      BESnoc(TWO8, bytes + Zeros(n - 1), 0);
      MulRotate(TWO8, BE(TWO8, bytes), Pow(TWO8, n - 1));
    }
  }

  // As a number, the padded message is the message, a one bit, zero bits, and
  // the length of the message in bits.
  lemma PaddedSpells(m: seq<u8>, size: nat, field: nat)
    requires size > 0 && Pow(TWO8, field) > 0
    ensures BE(TWO8, Padded(m, size, field))
         == ((2 * BE(TWO8, m) + 1) * 128 * Pow(TWO8, ZeroCount(|m|, size, field))) * Pow(TWO8, field)
            + 8 * |m| % Pow(TWO8, field)
  {
    hide BE, Pow, Zeros, BigEndianBytes;
    var z := ZeroCount(|m|, size, field);
    var one: seq<u8> := [0x80];
    assert Padded(m, size, field) == ((m + one) + Zeros(z)) + BigEndianBytes(8 * |m|, field);
    BESnoc(TWO8, m, 0x80);
    ZerosSpell(m + one, z);
    BEConcat(TWO8, (m + one) + Zeros(z), BigEndianBytes(8 * |m|, field));
    BytesSpell(8 * |m|, field);
  }

  predicate EndsBlock(length: nat, zeros: nat, size: nat, field: nat)
    requires size > 0
  {
    (length + 1 + zeros + field) % size == 0
  }

  // They are the fewest that do.
  lemma WholeBlocks(length: nat, size: nat, field: nat)
    requires size > 0
    ensures |Padded(Zeros(length), size, field)| % size == 0
    ensures EndsBlock(length, ZeroCount(length, size, field), size, field)
    ensures forall zeros: nat | EndsBlock(length, zeros, size, field) :: zeros >= ZeroCount(length, size, field)
  {
    var n := -1 - length - field;
    var z, q := n % size, n / size;
    assert n == size * q + z;
    assert size * (-q) == -(size * q);
    Quotient(length + 1 + z + field, size, -q, 0);
    forall zeros: nat | EndsBlock(length, zeros, size, field)
      ensures zeros >= z
    {
      if zeros < z {
        assert size * (-q - 1) == -(size * q) - size;
        Quotient(length + 1 + zeros + field, size, -q - 1, size + zeros - z);
      }
    }
  }

  // ---- The digest as bytes ----

  function WordBytes(words: seq<nat>, n: nat): (s: seq<u8>)
    ensures |s| == n * |words|
  {
    if words == [] then []
    else WordBytes(words[..|words| - 1], n) + BigEndianBytes(words[|words| - 1], n)
  }

  // Each word is read back from its bytes.
  lemma {:induction false} WordBytesSpell(words: seq<nat>, n: nat, i: nat)
    requires i < |words| && words[i] < Pow(TWO8, n)
    ensures 0 <= n * i <= n * i + n <= |WordBytes(words, n)|
    ensures BE(TWO8, WordBytes(words, n)[n * i..n * i + n]) == words[i]
  {
    var k := |words| - 1;
    var front, last := WordBytes(words[..k], n), BigEndianBytes(words[k], n);
    if i == k {
      assert WordBytes(words, n) == front + last && |front| == n * k;
      assert WordBytes(words, n)[n * i..n * i + n] == last;
      BytesSpell(words[k], n);
      Quotient(words[k], Pow(TWO8, n), 0, words[k]);
    } else {
      WordBytesSpell(words[..k], n, i);
      assert WordBytes(words, n)[n * i..n * i + n] == front[n * i..n * i + n];
    }
  }

  // One word, most significant byte first, as its shifts store it.
  method StoreWord(v: nat, n: nat, out: array<u8>, at: nat)
    requires at + n <= out.Length
    modifies out
    ensures out[..at + n] == old(out[..at]) + BigEndianBytes(v, n)
  {
    for i := 0 to n
      invariant out[..at + i] == old(out[..at]) + BigEndianBytes(v, n)[..i]
    {
      BigEndianByte(v, n, i);
      out[at + i] := v / Pow(TWO8, n - 1 - i) % 0x100;
    }
    assert BigEndianBytes(v, n)[..n] == BigEndianBytes(v, n);
  }

  method StoreWords(words: seq<nat>, n: nat, out: array<u8>)
    requires out.Length == n * |words|
    modifies out
    ensures out[..] == WordBytes(words, n)
  {
    hide WordBytes, BigEndianBytes;
    NoWords(n);
    var at := 0;
    for i := 0 to |words|
      invariant at == n * i && at <= out.Length && out[..at] == WordBytes(words[..i], n)
    {
      WordsNext(words, n, i);
      StoreWord(words[i], n, out, at);
      at := at + n;
    }
    assert words[..|words|] == words && out[..at] == out[..];
  }

  lemma NoWords(n: nat)
    ensures WordBytes([], n) == []
  {
  }

  lemma WordsNext(words: seq<nat>, n: nat, i: nat)
    requires i < |words|
    ensures WordBytes(words[..i + 1], n) == WordBytes(words[..i], n) + BigEndianBytes(words[i], n)
    ensures n * (i + 1) == n * i + n && n * (i + 1) <= n * |words|
  {
    assert words[..i + 1][..i] == words[..i];
    MulMonotone(n, i + 1, |words|);
  }
}
