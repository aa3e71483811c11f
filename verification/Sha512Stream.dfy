// The word-aligned streaming SHA-512: src/ota/monocypher-ed25519.c:185-307.
// Whole words are loaded in one go, stray bytes are ORed into place.
module Sha512Stream {
  import opened Machine
  import opened Radix
  import opened BigEndian
  import opened HashBlocks
  import opened Pieces

  const BLOCK := 128
  const LENGTH_FIELD := 16

  ghost function WordAt(data: seq<u8>, k: nat): (w: u64)
    requires k + 8 <= |data|
  {
    WordFits(data[k..k + 8]);
    BE(TWO8, data[k..k + 8])
  }

  lemma WordFits(s: seq<u8>)
    requires |s| == 8
    ensures 0 <= BE(TWO8, s) < TWO64
  {
    BEBound(TWO8, s);
    EightBytes();
  }

  // The sixteen big-endian words of a block.
  ghost function WordsOf(data: seq<u8>): (words: seq<u64>)
    ensures |words| == 16
  {
    seq(16, w requires 0 <= w < 16 => if 8 * w + 8 <= |data| then WordAt(data, 8 * w) else 0)
  }

  // sha512_compress, about which nothing is assumed.
  datatype WordCompression<!S(!new)> = WordCompression(g: (S, seq<u64>) -> S) {
    ghost function OnBytes(): Compression<S> {
      Compression((h: S, data: seq<u8>) => g(h, WordsOf(data)))
    }
  }

  ghost function Digest<S(!new)>(c: Compression<S>, iv: S, m: seq<u8>): S {
    c.Fold(iv, Padded(m, BLOCK, LENGTH_FIELD), BLOCK)
  }

  // ---- Bytes inside a word ----

  // input[word] |= (u64)b << (8 * (7 - byte)): one byte of the word is ORed.
  function OrInto(w: int, b: u8, byte: nat): int
    requires byte < 8
  {
    PowPositive(TWO8, 7 - byte);
    var p := Pow(TWO8, 7 - byte);
    var was := w / p % 0x100;
    w + (Or(was, b) - was) * p
  }

  lemma {:induction false} DigitUpdate(s: seq<int>, k: nat, d: int)
    requires k < |s|
    ensures BE(TWO8, s[k := d]) == BE(TWO8, s) + (d - s[k]) * Pow(TWO8, |s| - 1 - k)
  {
    var front, tail := s[..k], s[k + 1..];
    assert s == (front + [s[k]]) + tail && s[k := d] == (front + [d]) + tail;
    BEConcat(TWO8, front + [s[k]], tail);
    BEConcat(TWO8, front + [d], tail);
    BESnoc(TWO8, front, s[k]);
    BESnoc(TWO8, front, d);
    Spread(TWO8 * BE(TWO8, front), s[k], d, Pow(TWO8, |tail|));
  }

  lemma Spread(x: int, a: int, b: int, p: int)
    ensures (x + b) * p == (x + a) * p + (b - a) * p
  {
  }

  lemma DigitOf(s: seq<u8>, k: nat)
    requires k < |s|
    ensures Pow(TWO8, |s| - 1 - k) > 0 && BE(TWO8, s) / Pow(TWO8, |s| - 1 - k) % 0x100 == s[k]
  {
    hide BE, Pow;
    var front, tail := s[..k], s[k + 1..];
    assert s == (front + [s[k]]) + tail;
    BEConcat(TWO8, front + [s[k]], tail);
    BESnoc(TWO8, front, s[k]);
    BEBound(TWO8, tail);
    PowPositive(TWO8, |tail|);
    MiddleDigit(BE(TWO8, s), Pow(TWO8, |tail|), BE(TWO8, front), s[k], BE(TWO8, tail));
  }

  lemma MiddleDigit(v: int, p: int, high: int, d: int, low: int)
    requires p > 0 && 0 <= low < p && 0 <= d < 0x100 && v == (TWO8 * high + d) * p + low
    ensures v / p % 0x100 == d
  {
    Quotient(v, p, TWO8 * high + d, low);
    Quotient(TWO8 * high + d, 0x100, high, d);
  }

  // ORing a byte into a position that holds zero puts it there.
  lemma OrPutsByte(s: seq<u8>, k: nat, b: u8)
    requires |s| == 8 && k < 8 && s[k] == 0
    ensures OrInto(BE(TWO8, s), b, k) == BE(TWO8, s[k := b])
  {
    hide BE, Pow, Or;
    DigitOf(s, k);
    DigitUpdate(s, k, b);
    OrZero(b);
  }

  // ---- The context ----

  // crypto_sha512_ctx. msg is everything fed so far, pending the part of it
  // that has not been compressed yet.
  class Sha512<!S(!new)> {
    var hash: S
    const input: array<u64>
    var sizeHigh: u64
    var sizeLow: u64
    var inputIdx: nat
    const w: WordCompression<S>
    ghost const iv: S
    ghost var msg: seq<u8>

    constructor (w: WordCompression<S>, iv: S)
      ensures Filled(0) && inputIdx == 0 && fresh(input) && this.w == w && this.iv == iv && msg == []
    {
      this.w, this.iv := w, iv;
      hash, sizeHigh, sizeLow, inputIdx, msg := iv, 0, 0, 0, [];
      input := new u64[16](_ => 0);
      new;
      w.OnBytes().FoldNothing(iv, BLOCK);
      NoBytes(input[..]);
    }

    // The last n bytes of the message are in the input, the rest of which is
    // zero; everything before them is hashed and counted.
    ghost predicate Filled(n: nat)
      reads this`hash, this`sizeHigh, this`sizeLow, this`msg, input
    {
      && input.Length == 16 && n <= BLOCK && n <= |msg| && (|msg| - n) % BLOCK == 0
      && input[..] == WordsOf(msg[|msg| - n..] + Zeros(BLOCK - n))
      && hash == w.OnBytes().Fold(iv, msg[..|msg| - n], BLOCK)
      && Counts(sizeHigh, sizeLow, 8 * (|msg| - n))
    }

    ghost predicate Valid()
      reads this, input
    {
      Filled(inputIdx) && inputIdx < BLOCK
    }

    // sha512_set_input: one byte at inputIdx.
    method SetInput(b: u8, ghost bytes: seq<u8>)
      requires inputIdx < BLOCK && input.Length == 16 && |bytes| == BLOCK && bytes[inputIdx] == 0
      requires input[..] == WordsOf(bytes)
      modifies input
      ensures input[..] == WordsOf(bytes[inputIdx := b])
    {
      var word, byte := inputIdx / 8, inputIdx % 8;
      OneByte(bytes, word, byte, b);
      assert input[..][word] == WordAt(bytes, 8 * word);
      input[word] := OrInto(input[word], b, byte);
    }

    // A byte of the message.
    method PutByte(b: u8)
      requires Filled(inputIdx) && inputIdx < BLOCK
      modifies input, this`inputIdx, this`msg
      ensures Filled(inputIdx) && inputIdx == old(inputIdx) + 1 && msg == old(msg) + [b]
    {
      hide Compression.Fold, WordsOf, Counts;
      ghost var was, idx := msg, inputIdx;
      ghost var bytes := was[|was| - idx..] + Zeros(BLOCK - idx);
      SetInput(b, bytes);
      inputIdx := inputIdx + 1;
      msg := msg + [b];
      assert msg[..|msg| - inputIdx] == was[..|was| - idx];
      assert msg[|msg| - inputIdx..] + Zeros(BLOCK - inputIdx) == bytes[idx := b];
    }

    // Eight bytes of the message, loaded as one word.
    method PutWord(data: seq<u8>)
      requires Filled(inputIdx) && inputIdx % 8 == 0 && inputIdx < BLOCK && |data| == 8
      modifies input, this`inputIdx, this`msg
      ensures Filled(inputIdx) && inputIdx == old(inputIdx) + 8 && msg == old(msg) + data
    {
      hide Compression.Fold, WordsOf, Counts;
      ghost var was, idx := msg, inputIdx;
      ghost var bytes := was[|was| - idx..] + Zeros(BLOCK - idx);
      OneWord(bytes, idx / 8, data);
      input[inputIdx / 8] := Load64BE(data);
      inputIdx := inputIdx + 8;
      msg := msg + data;
      assert msg[..|msg| - inputIdx] == was[..|was| - idx];
      assert msg[|msg| - inputIdx..] + Zeros(BLOCK - inputIdx) == bytes[..idx] + data + bytes[idx + 8..];
    }

    // sha512_compress overwrites its input; what it leaves there is of no
    // concern, because the next thing to happen is that it is cleared.
    method Compress()
      requires input.Length == 16
      modifies this`hash, input
      ensures hash == w.g(old(hash), old(input[..]))
    {
      hash := w.g(hash, input[..]);
      for i := 0 to 16
        invariant hash == w.g(old(hash), old(input[..]))
      {
        input[i] := *;
      }
    }

    method ZeroInput(n: nat)
      requires input.Length == 16 && n <= 16
      modifies input
      ensures forall i | 0 <= i < n :: input[i] == 0
      ensures forall i | n <= i < 16 :: input[i] == old(input[i])
    {
      for i := 0 to n
        invariant forall k | 0 <= k < i :: input[k] == 0
        invariant forall k | i <= k < 16 :: input[k] == old(input[k])
      {
        input[i] := 0;
      }
    }

    // sha512_incr: add to a 128-bit counter kept in two words.
    method Increase(bits: u64, ghost n: nat)
      requires Counts(sizeHigh, sizeLow, n)
      modifies this`sizeHigh, this`sizeLow
      ensures Counts(sizeHigh, sizeLow, n + bits)
    {
      Carry(sizeHigh, sizeLow, bits, n);
      sizeLow := (sizeLow + bits) % TWO64;
      if sizeLow < bits {
        sizeHigh := (sizeHigh + 1) % TWO64;
      }
    }

    // A full block.
    method CompressBlock()
      requires Filled(BLOCK) && inputIdx == BLOCK
      modifies this`hash, input, this`sizeHigh, this`sizeLow, this`inputIdx
      ensures Filled(0) && inputIdx == 0
    {
      hide Compression.Fold, WordsOf, Counts;
      ghost var before, last := msg[..|msg| - BLOCK], msg[|msg| - BLOCK..];
      assert last + Zeros(0) == last && before + last == msg && msg[..|msg| - 0] == msg;
      w.OnBytes().FoldOneMore(iv, before, last, BLOCK);
      Increase(1024, 8 * (|msg| - BLOCK));
      Compress();
      inputIdx := 0;
      ZeroInput(16);
      NoBytes(input[..]);
      assert msg[|msg| - 0..] == [];
    }

    // The bytes that bring inputIdx up to a word boundary, or that are left.
    method PutBytes(data: seq<u8>)
      requires Filled(inputIdx) && inputIdx + |data| <= BLOCK
      modifies input, this`inputIdx, this`msg
      ensures Filled(inputIdx) && inputIdx == old(inputIdx) + |data| && msg == old(msg) + data
    {
      hide Filled;
      assert msg + data[..0] == msg;
      for i := 0 to |data|
        invariant Filled(inputIdx) && inputIdx == old(inputIdx) + i && msg == old(msg) + data[..i]
      {
        PutByte(data[i]);
        assert data[..i + 1] == data[..i] + [data[i]];
      }
      assert data[..|data|] == data;
    }

    // load64_be_buf into the input, from inputIdx on.
    method PutWords(data: seq<u8>)
      requires Filled(inputIdx) && inputIdx % 8 == 0 && |data| % 8 == 0 && inputIdx + |data| <= BLOCK
      modifies input, this`inputIdx, this`msg
      ensures Filled(inputIdx) && inputIdx == old(inputIdx) + |data| && msg == old(msg) + data
    {
      hide Filled;
      assert msg + data[..0] == msg;
      for i := 0 to |data| / 8
        invariant Filled(inputIdx) && inputIdx == old(inputIdx) + 8 * i && msg == old(msg) + data[..8 * i]
      {
        PutWord(data[8 * i..8 * i + 8]);
        assert data[..8 * i + 8] == data[..8 * i] + data[8 * i..8 * i + 8];
      }
      assert data[..8 * (|data| / 8)] == data;
    }

    // Words, then bytes, of a message shorter than what fits.
    method PutRest(data: seq<u8>)
      requires Filled(inputIdx) && inputIdx % 8 == 0 && inputIdx + |data| < BLOCK
      modifies input, this`inputIdx, this`msg
      ensures Valid() && inputIdx == old(inputIdx) + |data| && msg == old(msg) + data
    {
      hide Filled;
      var words := |data| / 8 * 8;
      PutWords(data[..words]);
      PutBytes(data[words..]);
      assert data[..words] + data[words..] == data;
    }

    method PutBlocks(data: seq<u8>) returns (used: nat)
      requires Filled(0) && inputIdx == 0
      modifies this`hash, input, this`sizeHigh, this`sizeLow, this`inputIdx, this`msg
      ensures Filled(0) && inputIdx == 0 && used <= |data| < used + BLOCK && msg == old(msg) + data[..used]
    {
      hide Filled;
      used := 0;
      for i := 0 to |data| / BLOCK
        invariant Filled(0) && inputIdx == 0 && used == BLOCK * i && msg == old(msg) + data[..used]
      {
        PutWords(data[used..used + BLOCK]);
        assert data[..used] + data[used..used + BLOCK] == data[..used + BLOCK];
        CompressBlock();
        used := used + BLOCK;
      }
    }

    // Align with a word boundary, then with the block boundary.
    method AlignWord(data: seq<u8>) returns (rest: seq<u8>)
      requires Valid()
      modifies input, this`inputIdx, this`msg
      ensures Filled(inputIdx) && msg + rest == old(msg) + data && (rest != [] ==> inputIdx % 8 == 0)
      ensures inputIdx <= BLOCK && (inputIdx % 8 != 0 ==> rest == [])
    {
      hide Filled;
      rest := data;
      if inputIdx % 8 != 0 {
        var gap := 8 - inputIdx % 8;
        var take := if gap <= |data| then gap else |data|;
        PutBytes(data[..take]);
        rest := data[take..];
        assert data[..take] + rest == data;
      }
    }

    method AlignBlock(data: seq<u8>) returns (rest: seq<u8>)
      requires Filled(inputIdx) && inputIdx <= BLOCK && (data != [] ==> inputIdx % 8 == 0)
      modifies input, this`inputIdx, this`msg
      ensures Filled(inputIdx) && msg + rest == old(msg) + data
      ensures data != [] ==> inputIdx % 8 == 0
      ensures inputIdx <= BLOCK && (0 < inputIdx < BLOCK ==> |rest| < 8 && inputIdx + |rest| < BLOCK)
      ensures data == [] ==> rest == [] && inputIdx == old(inputIdx)
    {
      hide Filled;
      rest := data;
      if inputIdx % BLOCK != 0 && data != [] {
        var gap := BLOCK - inputIdx;
        var words := (if gap <= |data| then gap else |data|) / 8 * 8;
        PutWords(data[..words]);
        rest := data[words..];
        assert data[..words] + rest == data;
      }
    }

    // crypto_sha512_update.
    method Update(message: seq<u8>)
      requires Valid()
      modifies this`hash, input, this`sizeHigh, this`sizeLow, this`inputIdx, this`msg
      ensures Valid() && msg == old(msg) + message
    {
      hide Filled;
      if message == [] {
        return;
      }
      var rest := AlignWord(message);
      rest := AlignBlock(rest);
      if inputIdx == BLOCK {
        CompressBlock();
      }
      Finish(rest);
    }

    // Whole blocks, and whatever then remains.
    method Finish(data: seq<u8>)
      requires Valid() && (data != [] ==> inputIdx % 8 == 0)
      requires inputIdx > 0 ==> |data| < 8 && inputIdx + |data| < BLOCK
      modifies this`hash, input, this`sizeHigh, this`sizeLow, this`inputIdx, this`msg
      ensures Valid() && msg == old(msg) + data
    {
      hide Filled;
      var rest := data;
      if inputIdx == 0 {
        var used := PutBlocks(data);
        rest := data[used..];
        assert data[..used] + rest == data;
      }
      if rest != [] {
        PutRest(rest);
      }
    }

    // The padding bit, and the count of the bytes that wait.
    method PutPaddingBit()
      requires Valid()
      modifies input, this`sizeHigh, this`sizeLow
      ensures Counts(sizeHigh, sizeLow, 8 * |msg|) && input.Length == 16
      ensures input[..] == WordsOf(msg[|msg| - inputIdx..] + [0x80] + Zeros(BLOCK - 1 - inputIdx))
    {
      hide Compression.Fold, WordsOf, Counts;
      ghost var bytes := msg[|msg| - inputIdx..] + Zeros(BLOCK - inputIdx);
      if inputIdx == 0 {
        ZeroInput(16);
        NoBytes(input[..]);
        assert bytes == [] + Zeros(BLOCK);
      }
      SetInput(128, bytes);
      assert bytes[inputIdx := 128] == msg[|msg| - inputIdx..] + [0x80] + Zeros(BLOCK - 1 - inputIdx);
      Increase(inputIdx * 8, 8 * (|msg| - inputIdx));
    }

    // The block that carries the length: words 14 and 15 are the counter.
    method CompressLast(ghost front: seq<u8>, ghost n: nat)
      requires input.Length == 16 && |front| == 112 && Counts(sizeHigh, sizeLow, 8 * n)
      requires forall i | 0 <= i < 14 :: input[i] == WordsOf(front + Zeros(16))[i]
      modifies input, this`hash
      ensures hash == w.g(old(hash), WordsOf(front + BigEndianBytes(8 * n, LENGTH_FIELD)))
    {
      hide WordsOf, Counts, BigEndianBytes, Zeros;
      input[14] := sizeHigh;
      input[15] := sizeLow;
      LastBlock(front, n, sizeHigh, sizeLow, input[..]);
      Compress();
    }

    // crypto_sha512_final: the digest of everything fed ends up in hash.
    method Final()
      requires Valid()
      modifies this`hash, input, this`sizeHigh, this`sizeLow
      ensures hash == Digest(w.OnBytes(), iv, old(msg))
    {
      hide Compression.Fold, WordsOf, Counts, BigEndianBytes, Zeros;
      ghost var pending, before := msg[|msg| - inputIdx..], msg[..|msg| - inputIdx];
      ghost var n := |msg|;
      assert before + pending == msg && hash == w.OnBytes().Fold(iv, before, BLOCK);
      PutPaddingBit();
      if inputIdx > 111 {
        ghost var penultimate := pending + [0x80] + Zeros(BLOCK - 1 - inputIdx);
        w.OnBytes().FoldOneMore(iv, before, penultimate, BLOCK);
        Compress();
        ZeroInput(14);
        ZeroWords();
        w.OnBytes().FoldOneMore(iv, before + penultimate, Zeros(112) + BigEndianBytes(8 * n, LENGTH_FIELD), BLOCK);
        CompressLast(Zeros(112), n);
        LongTail(msg, before, pending, inputIdx);
      } else {
        ghost var front := pending + [0x80] + Zeros(111 - inputIdx);
        ZerosJoin(111 - inputIdx, 16);
        assert front + Zeros(16) == pending + [0x80] + Zeros(BLOCK - 1 - inputIdx);
        w.OnBytes().FoldOneMore(iv, before, front + BigEndianBytes(8 * n, LENGTH_FIELD), BLOCK);
        CompressLast(front, n);
        ShortTail(msg, before, pending, inputIdx);
      }
    }
  }

  lemma NoBytes(words: seq<u64>)
    requires |words| == 16 && forall i | 0 <= i < 16 :: words[i] == 0
    ensures words == WordsOf([] + Zeros(BLOCK))
  {
    forall i | 0 <= i < 16
      ensures WordsOf([] + Zeros(BLOCK))[i] == 0
    {
      ZeroDigits(([] + Zeros(BLOCK))[8 * i..8 * i + 8]);
    }
  }

  lemma {:induction false} ZeroDigits(s: seq<u8>)
    requires forall i | 0 <= i < |s| :: s[i] == 0
    ensures BE(TWO8, s) == 0
  {
    if s != [] {
      ZeroDigits(s[..|s| - 1]);
    }
  }

  // The 128-bit counter, as high and low word.
  ghost predicate Counts(high: u64, low: u64, bits: nat) {
    TWO64 * high + low == bits % (TWO64 * TWO64)
  }

  lemma Carry(high: u64, low: u64, bits: u64, n: nat)
    requires Counts(high, low, n)
    ensures var sum := (low + bits) % TWO64;
            Counts(if sum < bits then (high + 1) % TWO64 else high, sum, n + bits)
  {
    var big := TWO64 * TWO64;
    var q := n / big;
    assert n == big * q + TWO64 * high + low;
    if low + bits < TWO64 {
      Quotient(n + bits, big, q, TWO64 * high + low + bits);
    } else if high + 1 < TWO64 {
      Quotient(n + bits, big, q, TWO64 * (high + 1) + (low + bits - TWO64));
    } else {
      Quotient(n + bits, big, q + 1, low + bits - TWO64);
    }
  }

  // How one byte changes the words of a block.
  lemma OneByte(bytes: seq<u8>, word: nat, byte: nat, b: u8)
    requires |bytes| == BLOCK && word < 16 && byte < 8 && bytes[8 * word + byte] == 0
    ensures WordsOf(bytes[8 * word + byte := b])
         == WordsOf(bytes)[word := WordAt(bytes[8 * word + byte := b], 8 * word)]
    ensures OrInto(WordAt(bytes, 8 * word), b, byte) == WordAt(bytes[8 * word + byte := b], 8 * word)
  {
    var after := bytes[8 * word + byte := b];
    OrPutsByte(bytes[8 * word..8 * word + 8], byte, b);
    assert after[8 * word..8 * word + 8] == bytes[8 * word..8 * word + 8][byte := b];
    forall i | 0 <= i < 16 && i != word
      ensures WordAt(after, 8 * i) == WordAt(bytes, 8 * i)
    {
      assert after[8 * i..8 * i + 8] == bytes[8 * i..8 * i + 8];
    }
  }

  // And how a loaded word does.
  lemma OneWord(bytes: seq<u8>, word: nat, data: seq<u8>)
    requires |bytes| == BLOCK && word < 16 && |data| == 8
    ensures WordsOf(bytes[..8 * word] + data + bytes[8 * word + 8..]) == WordsOf(bytes)[word := WordAt(data, 0)]
  {
    var after := bytes[..8 * word] + data + bytes[8 * word + 8..];
    assert after[8 * word..8 * word + 8] == data == data[0..8];
    forall i | 0 <= i < 16 && i != word
      ensures WordAt(after, 8 * i) == WordAt(bytes, 8 * i)
    {
      assert after[8 * i..8 * i + 8] == bytes[8 * i..8 * i + 8];
    }
  }

  function Word64(b0: int, b1: int, b2: int, b3: int, b4: int, b5: int, b6: int, b7: int): int {
    0x100_0000_0000_0000 * b0 + 0x1_0000_0000_0000 * b1 + 0x100_0000_0000 * b2 + 0x1_0000_0000 * b3
    + 0x100_0000 * b4 + 0x1_0000 * b5 + 0x100 * b6 + b7
  }

  function Load64BE(d: seq<u8>): (w: u64)
    requires |d| == 8
    ensures w == WordAt(d, 0)
  {
    LoadIs(d);
    Word64(d[0], d[1], d[2], d[3], d[4], d[5], d[6], d[7])
  }

  lemma LoadIs(d: seq<u8>)
    requires |d| == 8
    ensures WordAt(d, 0) == Word64(d[0], d[1], d[2], d[3], d[4], d[5], d[6], d[7])
  {
    hide BE;
    assert d[0..8] == d;
    BEEmpty();
    OneDigit(d, 0);
    OneDigit(d, 1);
    OneDigit(d, 2);
    OneDigit(d, 3);
    OneDigit(d, 4);
    OneDigit(d, 5);
    OneDigit(d, 6);
    OneDigit(d, 7);
    assert d[..8] == d && d[..0] == [];
  }

  lemma BEEmpty()
    ensures BE(TWO8, []) == 0
  {
  }

  lemma OneDigit(d: seq<u8>, k: nat)
    requires k < |d|
    ensures BE(TWO8, d[..k + 1]) == TWO8 * BE(TWO8, d[..k]) + d[k]
  {
    assert d[..k + 1] == d[..k] + [d[k]];
    BESnoc(TWO8, d[..k], d[k]);
  }

  lemma ZerosJoin(a: nat, b: nat)
    ensures Zeros(a) + Zeros(b) == Zeros(a + b)
  {
  }

  lemma ZeroWords()
    ensures forall i | 0 <= i < 14 :: WordsOf(Zeros(112) + Zeros(16))[i] == 0
  {
    forall i | 0 <= i < 14
      ensures WordsOf(Zeros(112) + Zeros(16))[i] == 0
    {
      ZeroDigits((Zeros(112) + Zeros(16))[8 * i..8 * i + 8]);
    }
  }

  // The padded message, when the length fits in the block that is under way,
  lemma ShortTail(m: seq<u8>, before: seq<u8>, pending: seq<u8>, idx: nat)
    requires m == before + pending && |pending| == idx <= 111 && |before| % BLOCK == 0
    ensures before + (pending + [0x80] + Zeros(111 - idx) + BigEndianBytes(8 * |m|, LENGTH_FIELD))
         == Padded(m, BLOCK, LENGTH_FIELD)
  {
    hide Zeros, BigEndianBytes;
    assert ZeroCount(|m|, BLOCK, LENGTH_FIELD) == 111 - idx;
  }

  // and when it takes another one.
  lemma LongTail(m: seq<u8>, before: seq<u8>, pending: seq<u8>, idx: nat)
    requires m == before + pending && 111 < |pending| == idx < BLOCK && |before| % BLOCK == 0
    ensures before + (pending + [0x80] + Zeros(BLOCK - 1 - idx)) + (Zeros(112) + BigEndianBytes(8 * |m|, LENGTH_FIELD))
         == Padded(m, BLOCK, LENGTH_FIELD)
  {
    hide Zeros, BigEndianBytes;
    assert ZeroCount(|m|, BLOCK, LENGTH_FIELD) == BLOCK - 1 - idx + 112;
    ZerosJoin(BLOCK - 1 - idx, 112);
  }

  lemma LastBlock(front: seq<u8>, n: nat, high: u64, low: u64, words: seq<u64>)
    requires |front| == 112 && |words| == 16 && Counts(high, low, 8 * n)
    requires forall i | 0 <= i < 14 :: words[i] == WordsOf(front + Zeros(16))[i]
    requires words[14] == high && words[15] == low
    ensures words == WordsOf(front + BigEndianBytes(8 * n, LENGTH_FIELD))
  {
    var field := BigEndianBytes(8 * n, LENGTH_FIELD);
    var last := front + field;
    CounterBytes(n, high, low);
    hide BigEndianBytes, Zeros, BE;
    assert last[112..120] == field[..8] && last[120..128] == field[8..];
    forall i | 0 <= i < 14
      ensures words[i] == WordsOf(last)[i]
    {
      assert last[8 * i..8 * i + 8] == (front + Zeros(16))[8 * i..8 * i + 8];
    }
  }

  // The counter words are the two halves of the length field.
  lemma CounterBytes(n: nat, high: u64, low: u64)
    requires Counts(high, low, 8 * n)
    ensures var field := BigEndianBytes(8 * n, LENGTH_FIELD);
            BE(TWO8, field[..8]) == high && BE(TWO8, field[8..]) == low
  {
    EightBytes();
    hide BigEndianBytes, BE, Pow;
    BytesSplit(8 * n, 8, 8);
    BytesSpell(8 * n / TWO64, 8);
    BytesSpell(8 * n, 8);
    HalvesOf(8 * n, high, low);
    assert BigEndianBytes(8 * n, 16)[..8] == BigEndianBytes(8 * n / TWO64, 8);
    assert BigEndianBytes(8 * n, 16)[8..] == BigEndianBytes(8 * n, 8);
  }

  lemma HalvesOf(v: nat, high: u64, low: u64)
    requires Counts(high, low, v)
    ensures v / TWO64 % TWO64 == high && v % TWO64 == low
  {
    var q := v / (TWO64 * TWO64);
    Quotient(v, TWO64, TWO64 * q + high, low);
    Quotient(v / TWO64, TWO64, q, high);
  }

  // The eight words of the chaining value.
  type Words = h: seq<u64> | |h| == 8 witness [0, 0, 0, 0, 0, 0, 0, 0]

  // crypto_sha512: the one-shot form, down to the bytes of the digest.
  method OneShot(w: WordCompression<Words>, iv: Words, data: seq<u8>, out: array<u8>)
    requires out.Length == 64
    modifies out
    ensures out[..] == WordBytes(Digest(w.OnBytes(), iv, data), 8)
  {
    hide Digest;
    var ctx := new Sha512(w, iv);
    ctx.Update(data);
    assert [] + data == data;
    ctx.Final();
    StoreWords(ctx.hash, 8, out);
  }

  // However the message is cut up, the digest is that of the whole.
  method InPieces<S(!new)>(w: WordCompression<S>, iv: S, pieces: seq<seq<u8>>) returns (h: S)
    ensures h == Digest(w.OnBytes(), iv, Joined(pieces))
  {
    hide Digest;
    var ctx := new Sha512(w, iv);
    for i := 0 to |pieces|
      invariant ctx.Valid() && fresh(ctx) && fresh(ctx.input) && ctx.w == w && ctx.iv == iv
      invariant ctx.msg == Joined(pieces[..i])
    {
      ctx.Update(pieces[i]);
      JoinedNext(pieces, i);
    }
    assert pieces[..|pieces|] == pieces;
    ctx.Final();
    h := ctx.hash;
  }
}
