// Little-endian byte strings against little-endian arrays of 32-bit words:
// load32_le_buf and store32_le_buf of src/ota/monocypher.c:100-137.
module Bytes {
  import opened Machine
  import opened Radix

  function Word(b0: int, b1: int, b2: int, b3: int): int {
    b0 + 0x100 * b1 + 0x1_0000 * b2 + 0x100_0000 * b3
  }

  lemma {:induction false} FourBytesPerWord(n: nat)
    ensures Pow(TWO32, n) == Pow(TWO8, 4 * n)
  {
    if n > 0 {
      FourBytesPerWord(n - 1);
      assert Pow(TWO8, 4 * n) == TWO8 * Pow(TWO8, 4 * n - 1);
      assert Pow(TWO8, 4 * n - 1) == TWO8 * Pow(TWO8, 4 * n - 2);
      assert Pow(TWO8, 4 * n - 2) == TWO8 * Pow(TWO8, 4 * n - 3);
      assert Pow(TWO8, 4 * n - 3) == TWO8 * Pow(TWO8, 4 * n - 4);
    }
  }

  // One word more against four bytes more.
  lemma WordOfBytes(words: seq<int>, bytes: seq<int>, i: nat)
    requires i < |words| && 4 * i + 4 <= |bytes|
    requires Val(TWO32, words[..i]) == Val(TWO8, bytes[..4 * i])
    requires words[i] == Word(bytes[4 * i], bytes[4 * i + 1], bytes[4 * i + 2], bytes[4 * i + 3])
    ensures Val(TWO32, words[..i + 1]) == Val(TWO8, bytes[..4 * (i + 1)])
  {
    hide Val, Pow;
    ValTake(TWO32, words, i);
    FourBytesPerWord(i);
    var k := 4 * i;
    ValTake(TWO8, bytes, k);
    ValTake(TWO8, bytes, k + 1);
    ValTake(TWO8, bytes, k + 2);
    ValTake(TWO8, bytes, k + 3);
    NextPower(k);
    NextPower(k + 1);
    NextPower(k + 2);
  }

  lemma NextPower(n: nat)
    ensures Pow(TWO8, n + 1) == TWO8 * Pow(TWO8, n)
  {
  }

  method Load32LeBuf(src: seq<u8>, size: nat) returns (dst: array<u32>)
    requires |src| == 4 * size
    ensures fresh(dst) && dst.Length == size
    ensures Val(TWO32, dst[..]) == Val(TWO8, src)
  {
    hide Val, Pow;
    dst := new u32[size](_ => 0);
    Empty(TWO32);
    Empty(TWO8);
    for i := 0 to size
      invariant Val(TWO32, dst[..i]) == Val(TWO8, src[..4 * i])
    {
      dst[i] := Word(src[4 * i], src[4 * i + 1], src[4 * i + 2], src[4 * i + 3]);
      assert dst[..][..i] == dst[..i] && dst[..][..i + 1] == dst[..i + 1];
      WordOfBytes(dst[..], src, i);
    }
    assert dst[..size] == dst[..] && src[..4 * size] == src;
  }

  lemma BytesOfWord(w: int)
    requires 0 <= w < TWO32
    ensures w == Word(w % 0x100, w / 0x100 % 0x100, w / 0x1_0000 % 0x100, w / 0x100_0000 % 0x100)
  {
    var a := w / 0x100;
    assert w / 0x1_0000 == a / 0x100;
    var b := a / 0x100;
    assert w / 0x100_0000 == b / 0x100;
  }

  method Store32LeBuf(src: array<u32>) returns (dst: array<u8>)
    ensures fresh(dst) && dst.Length == 4 * src.Length
    ensures Val(TWO8, dst[..]) == Val(TWO32, src[..])
  {
    hide Val, Pow;
    dst := new u8[4 * src.Length](_ => 0);
    Empty(TWO32);
    Empty(TWO8);
    for i := 0 to src.Length
      invariant Val(TWO32, src[..i]) == Val(TWO8, dst[..4 * i])
    {
      ghost var before := dst[..4 * i];
      var w := src[i];
      dst[4 * i] := w % 0x100;
      dst[4 * i + 1] := w / 0x100 % 0x100;
      dst[4 * i + 2] := w / 0x1_0000 % 0x100;
      dst[4 * i + 3] := w / 0x100_0000 % 0x100;
      BytesOfWord(w);
      assert dst[..4 * i] == before;
      assert dst[..][..4 * i] == before && dst[..][..4 * (i + 1)] == dst[..4 * (i + 1)];
      assert src[..][..i] == src[..i] && src[..][..i + 1] == src[..i + 1];
      WordOfBytes(src[..], dst[..], i);
    }
    assert src[..src.Length] == src[..] && dst[..4 * src.Length] == dst[..];
  }
}
