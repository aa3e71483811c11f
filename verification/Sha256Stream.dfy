// The buffering and padding of SHA-256: src/vault/sha256.c:63-147.
module Sha256Stream {
  import opened Machine
  import opened HashBlocks
  import opened Pieces
  import opened Radix

  const BLOCK := 64
  const LENGTH_FIELD := 8

  // What FIPS 180-4 says the chaining value of a whole message is.
  ghost function Digest<S(!new)>(c: Compression<S>, iv: S, m: seq<u8>): S {
    c.Fold(iv, Padded(m, BLOCK, LENGTH_FIELD), BLOCK)
  }

  // The counter is the length so far, as far as 64 bits go.
  ghost predicate Counted(total: u64, n: nat) {
    total == n % TWO64
  }

  lemma CountMore(total: u64, n: nat, k: nat)
    requires Counted(total, n)
    ensures Counted((total + k) % TWO64, n + k)
  {
  }

  // The computed number of zeros is the one the standard asks for.
  lemma ZerosNeeded(n: nat, bufLen: nat)
    requires bufLen < 64 && (n + 1 - bufLen) % 64 == 0
    ensures (if bufLen <= 56 then 56 - bufLen else 56 + 64 - bufLen) == ZeroCount(n, BLOCK, LENGTH_FIELD)
  {
  }

  // And it always leaves 56 bytes in the buffer.
  lemma EndsAt56(n: nat, zeros: nat, bufLen: nat)
    requires zeros == ZeroCount(n, BLOCK, LENGTH_FIELD) && bufLen < 64 && (n + 1 + zeros - bufLen) % 64 == 0
    ensures bufLen == 56
  {
  }

  method LengthBytes(bitLen: u64) returns (bytes: seq<u8>)
    ensures bytes == BigEndianBytes(bitLen, LENGTH_FIELD)
  {
    bytes := [];
    for i := 0 to 8
      invariant bytes == BigEndianBytes(bitLen, LENGTH_FIELD)[..i]
    {
      BigEndianByte(bitLen, LENGTH_FIELD, i);
      bytes := bytes + [bitLen / Pow(TWO8, 7 - i) % 0x100];
    }
  }

  lemma LengthOf(n: nat, totalLen: u64, bitLen: u64)
    requires Counted(totalLen, n) && bitLen == totalLen * 8 % TWO64
    ensures BigEndianBytes(bitLen, LENGTH_FIELD) == BigEndianBytes(8 * n, LENGTH_FIELD)
  {
    hide BigEndianBytes, Pow;
    var q := n / TWO64;
    Quotient(8 * n, TWO64, 8 * q + totalLen * 8 / TWO64, bitLen);
    EightBytes();
    BigEndianLow(8 * n, bitLen, 8);
  }

  method CopyIn(dst: array<u8>, at: nat, src: seq<u8>)
    requires at + |src| <= dst.Length
    modifies dst
    ensures dst[..] == old(dst[..at]) + src + old(dst[at + |src|..])
  {
    for i := 0 to |src|
      invariant dst[..at + i] == old(dst[..at]) + src[..i] && dst[at + i..] == old(dst[at + i..])
    {
      dst[at + i] := src[i];
    }
    assert src[..|src|] == src;
  }

  // sha256_ctx_t. msg is everything fed so far.
  class Sha256<!S(!new)> {
    var h: S
    var totalLen: u64
    const buf: array<u8>
    var bufLen: nat
    const c: Compression<S>
    ghost const iv: S
    ghost var msg: seq<u8>

    constructor (c: Compression<S>, iv: S)
      ensures Valid() && fresh(buf) && this.c == c && this.iv == iv && msg == []
    {
      this.c, this.iv := c, iv;
      h, totalLen, bufLen, msg := iv, 0, 0, [];
      buf := new u8[BLOCK](_ => 0);
      new;
      c.FoldNothing(iv, BLOCK);
    }

    ghost predicate Valid()
      reads this, buf
    {
      && Buffered(bufLen) && bufLen < BLOCK && Counted(totalLen, |msg|)
    }

    // The last n bytes of the message wait in the buffer; the rest is hashed.
    ghost predicate Buffered(n: nat)
      reads this`msg, this`h, buf
    {
      && buf.Length == BLOCK && n <= BLOCK && n <= |msg| && (|msg| - n) % BLOCK == 0
      && buf[..n] == msg[|msg| - n..] && h == c.Fold(iv, msg[..|msg| - n], BLOCK)
    }

    method Transform(data: seq<u8>)
      modifies this`h
      ensures h == c.Step(old(h), data)
    {
      h := c.f(h, data);
    }

    // The message grew by one block's worth that has now been hashed.
    lemma Absorb(before: seq<u8>, data: seq<u8>, was: S)
      requires |before| % BLOCK == 0 && |data| == BLOCK && was == c.Fold(iv, before, BLOCK)
      ensures c.Step(was, data) == c.Fold(iv, before + data, BLOCK) && |before + data| % BLOCK == 0
    {
      c.FoldOneMore(iv, before, data, BLOCK);
    }

    method FlushBuffer()
      requires Buffered(BLOCK) && bufLen == BLOCK
      modifies this`h, this`bufLen
      ensures Buffered(0) && bufLen == 0
    {
      hide Compression.Fold, Compression.Step;
      Absorb(msg[..|msg| - BLOCK], buf[..], h);
      assert msg[..|msg| - BLOCK] + buf[..] == msg && msg[..|msg| - 0] == msg;
      Transform(buf[..]);
      bufLen := 0;
    }

    // The first part of sha256_update: complete the block in the buffer.
    method TopUp(data: seq<u8>) returns (take: nat)
      requires Buffered(bufLen) && 0 < bufLen < BLOCK
      modifies this`h, this`bufLen, this`msg, buf
      ensures Buffered(bufLen) && bufLen < BLOCK && take <= |data| && msg == old(msg) + data[..take]
      ensures take < |data| ==> bufLen == 0
    {
      hide Compression.Fold;
      var need := BLOCK - bufLen;
      take := if |data| < need then |data| else need;
      CopyIn(buf, bufLen, data[..take]);
      ghost var was := msg;
      msg := msg + data[..take];
      bufLen := bufLen + take;
      assert msg[..|msg| - bufLen] == was[..|was| - (bufLen - take)];
      assert buf[..bufLen] == msg[|msg| - bufLen..];
      if bufLen == BLOCK {
        FlushBuffer();
      }
    }

    // The second part: whole blocks straight from the input.
    method WholeBlocksOf(data: seq<u8>) returns (used: nat)
      requires Buffered(0) && bufLen == 0
      modifies this`h, this`msg
      ensures Buffered(0) && used <= |data| < used + BLOCK && msg == old(msg) + data[..used]
    {
      hide Compression.Fold, Compression.Step;
      used := 0;
      while |data| - used >= BLOCK
        invariant Buffered(0) && used <= |data| && msg == old(msg) + data[..used]
      {
        ghost var was := msg;
        assert msg[..|msg| - 0] == msg;
        Absorb(msg, data[used..used + BLOCK], h);
        Transform(data[used..used + BLOCK]);
        msg := msg + data[used..used + BLOCK];
        assert msg[..|msg| - 0] == was + data[used..used + BLOCK];
        assert data[..used] + data[used..used + BLOCK] == data[..used + BLOCK];
        used := used + BLOCK;
      }
    }

    // The third part: what is left waits in the buffer.
    method Keep(data: seq<u8>)
      requires Buffered(0) && bufLen == 0 && |data| < BLOCK
      modifies this`bufLen, this`msg, buf
      ensures Buffered(bufLen) && bufLen == |data| && msg == old(msg) + data
    {
      hide Compression.Fold;
      if |data| > 0 {
        CopyIn(buf, 0, data);
        bufLen := |data|;
      }
      ghost var was := msg;
      msg := msg + data;
      assert msg[..|msg| - |data|] == was[..|was| - 0] && msg[|msg| - |data|..] == data;
    }

    // Any length, in any state of the buffer.
    method Update(data: seq<u8>)
      requires Valid()
      modifies this`h, this`totalLen, this`bufLen, this`msg, buf
      ensures Valid() && msg == old(msg) + data
    {
      hide Compression.Fold, Buffered, Counted;
      CountMore(totalLen, |msg|, |data|);
      totalLen := (totalLen + |data|) % TWO64;
      var rest := data;
      if bufLen > 0 {
        var taken := TopUp(data);
        rest := data[taken..];
        assert data[..taken] + rest == data;
      }
      ghost var before := msg;
      assert before + rest == old(msg) + data;
      if rest != [] {
        Remaining(rest);
      }
    }

    method Remaining(rest: seq<u8>)
      requires Buffered(0) && bufLen == 0
      modifies this`h, this`bufLen, this`msg, buf
      ensures Buffered(bufLen) && bufLen < BLOCK && msg == old(msg) + rest
    {
      hide Compression.Fold, Buffered;
      var used := WholeBlocksOf(rest);
      Keep(rest[used..]);
      assert rest[..used] + rest[used..] == rest;
    }

    lemma Waiting()
      requires Valid()
      ensures bufLen < BLOCK && bufLen <= |msg| && (|msg| - bufLen) % BLOCK == 0
    {
    }

    // The 0x80 byte and the zeros.
    method PadTo56()
      requires Valid()
      modifies this`h, this`totalLen, this`bufLen, this`msg, buf
      ensures Valid() && bufLen == 56
      ensures msg == old(msg) + [0x80] + Zeros(ZeroCount(|old(msg)|, BLOCK, LENGTH_FIELD))
    {
      hide Compression.Fold, ZeroCount, Zeros, Counted, Valid;
      ghost var n := |msg|;
      Update([0x80]);
      Waiting();
      var zerosNeeded := if bufLen <= 56 then 56 - bufLen else 56 + 64 - bufLen;
      ZerosNeeded(n, bufLen);
      Update(Zeros(zerosNeeded));
      Waiting();
      EndsAt56(n, zerosNeeded, bufLen);
    }

    // The length field completes the last block.
    method AppendLength(lenBytes: seq<u8>)
      requires Valid() && bufLen == 56 && |lenBytes| == 8
      modifies this`h, this`bufLen, this`msg, buf
      ensures msg == old(msg) + lenBytes && |msg| % BLOCK == 0 && h == c.Fold(iv, msg, BLOCK)
    {
      hide Compression.Fold;
      ghost var was := msg;
      CopyIn(buf, 56, lenBytes);
      msg := msg + lenBytes;
      bufLen := 64;
      assert msg[..|msg| - 64] == was[..|was| - 56] && buf[..64] == msg[|msg| - 64..];
      FlushBuffer();
      assert msg[..|msg| - 0] == msg;
    }

    // sha256_final: pads, and leaves the digest of everything fed in h.
    method Final()
      requires Valid()
      modifies this`h, this`totalLen, this`bufLen, this`msg, buf
      ensures h == Digest(c, iv, old(msg))
    {
      hide Compression.Fold, BigEndianBytes, Zeros, ZeroCount, Buffered, Counted;
      ghost var n := |msg|;
      var bitLen: u64 := totalLen * 8 % TWO64;
      LengthOf(n, totalLen, bitLen);
      PadTo56();
      var lenBytes := LengthBytes(bitLen);
      AppendLength(lenBytes);
      assert msg == Padded(old(msg), BLOCK, LENGTH_FIELD);
    }
  }

  // The eight words of the chaining value.
  type Words = h: seq<u32> | |h| == 8 witness [0, 0, 0, 0, 0, 0, 0, 0]

  // sha256: the one-shot form, down to the bytes of the digest.
  method OneShot(c: Compression<Words>, iv: Words, data: seq<u8>, out: array<u8>)
    requires out.Length == 32
    modifies out
    ensures out[..] == WordBytes(Digest(c, iv, data), 4)
  {
    hide Digest;
    var ctx := new Sha256(c, iv);
    ctx.Update(data);
    assert [] + data == data;
    ctx.Final();
    StoreWords(ctx.h, 4, out);
  }

  // However the message is cut up, the digest is that of the whole.
  method InPieces<S(!new)>(c: Compression<S>, iv: S, pieces: seq<seq<u8>>) returns (h: S)
    ensures h == Digest(c, iv, Joined(pieces))
  {
    hide Digest;
    var ctx := new Sha256(c, iv);
    for i := 0 to |pieces|
      invariant ctx.Valid() && fresh(ctx) && fresh(ctx.buf) && ctx.c == c && ctx.iv == iv
      invariant ctx.msg == Joined(pieces[..i])
    {
      ctx.Update(pieces[i]);
      JoinedNext(pieces, i);
    }
    assert pieces[..|pieces|] == pieces;
    ctx.Final();
    h := ctx.h;
  }
}
