// Reassembly of length-prefixed messages from a stream of BLE writes:
// src/proto/ble_frame.c.
module BleFrame {
  import opened Machine
  import opened Pieces

  const BUF_SIZE := 4096

  // ---- One byte at a time ----

  // hdr holds the header bytes seen, got the payload bytes seen, out the
  // messages handed over.
  datatype State = State(hdr: seq<u8>, want: nat, got: seq<u8>, discard: nat, out: seq<seq<u8>>)

  const START: State := State([], 0, [], 0, [])

  function Length(lo: int, hi: int): int {
    lo + 0x100 * hi
  }

  function Header(s: State, want: nat): State {
    if want == 0 then s.(hdr := [])
    else if want > BUF_SIZE - 1 then s.(hdr := [], discard := want)
    else s.(want := want, got := [])
  }

  function Byte(s: State, b: u8): State {
    if s.discard > 0 then s.(discard := s.discard - 1)
    else if |s.hdr| == 0 then s.(hdr := [b])
    else if |s.hdr| == 1 then Header(s.(hdr := s.hdr + [b]), Length(s.hdr[0], b))
    else if |s.got| + 1 == s.want then State([], 0, [], 0, s.out + [s.got + [b]])
    else s.(got := s.got + [b])
  }

  function Feed(s: State, data: seq<u8>): State {
    if data == [] then s else Byte(Feed(s, data[..|data| - 1]), data[|data| - 1])
  }

  lemma FeedOne(s: State, data: seq<u8>, b: u8)
    ensures Feed(s, data + [b]) == Byte(Feed(s, data), b)
  {
    assert (data + [b])[..|data|] == data;
  }

  // Where the stream is cut does not matter.
  lemma {:induction false} FeedSplit(s: State, a: seq<u8>, b: seq<u8>)
    ensures Feed(s, a + b) == Feed(Feed(s, a), b)
  {
    if b == [] {
      assert a + b == a;
    } else {
      var k := |b| - 1;
      FeedSplit(s, a, b[..k]);
      assert a + b == (a + b[..k]) + [b[k]];
      FeedOne(s, a + b[..k], b[k]);
    }
  }

  lemma FeedFirst(s: State, b: u8, rest: seq<u8>)
    ensures Feed(s, [b] + rest) == Feed(Byte(s, b), rest)
  {
    FeedSplit(s, [b], rest);
    FeedOne(s, [], b);
    assert [] + [b] == [b];
  }

  lemma OneByte(s: State, b: u8)
    ensures Feed(s, [b]) == Byte(s, b)
  {
    FeedOne(s, [], b);
    assert [] + [b] == [b];
  }

  // The two ways the code takes several bytes at once.
  lemma {:induction false} Swallow(s: State, data: seq<u8>)
    requires |data| <= s.discard
    ensures Feed(s, data) == s.(discard := s.discard - |data|)
  {
    if data != [] {
      Swallow(s, data[..|data| - 1]);
    }
  }

  lemma {:induction false} Payload(s: State, data: seq<u8>)
    requires |s.hdr| == 2 && s.discard == 0 && |s.got| + |data| < s.want
    ensures Feed(s, data) == s.(got := s.got + data)
  {
    if data == [] {
      assert s.got + [] == s.got;
    } else {
      var k := |data| - 1;
      Payload(s, data[..k]);
      assert s.got + data[..k] + [data[k]] == s.got + data;
    }
  }

  lemma LastPayload(s: State, data: seq<u8>)
    requires |s.hdr| == 2 && s.discard == 0 && data != [] && |s.got| + |data| == s.want
    ensures Feed(s, data) == State([], 0, [], 0, s.out + [s.got + data])
  {
    var k := |data| - 1;
    Payload(s, data[..k]);
    assert s.got + data[..k] + [data[k]] == s.got + data;
  }

  // ---- Whole messages ----

  predicate Framable(m: seq<u8>) {
    |m| < 0x1_0000
  }

  function Frame(m: seq<u8>): seq<u8>
    requires Framable(m)
  {
    [|m| % 0x100, |m| / 0x100] + m
  }

  function Frames(ms: seq<seq<u8>>): seq<u8>
    requires forall i | 0 <= i < |ms| :: Framable(ms[i])
  {
    if ms == [] then [] else Frames(ms[..|ms| - 1]) + Frame(ms[|ms| - 1])
  }

  // The messages that are delivered: from 1 to 4095 bytes.
  function Deliverable(ms: seq<seq<u8>>): seq<seq<u8>> {
    if ms == [] then []
    else
      var m := ms[|ms| - 1];
      Deliverable(ms[..|ms| - 1]) + (if 1 <= |m| <= 4095 then [m] else [])
  }

  lemma OneFrame(s: State, m: seq<u8>)
    requires s == START.(out := s.out) && Framable(m)
    ensures Feed(s, Frame(m)) == START.(out := s.out + if 0 < |m| < BUF_SIZE then [m] else [])
  {
    var lo, hi := |m| % 0x100, |m| / 0x100;
    assert Frame(m) == [lo] + ([hi] + m);
    FeedFirst(s, lo, [hi] + m);
    var s1 := s.(hdr := [lo]);
    FeedFirst(s1, hi, m);
    assert Length(lo, hi) == |m| && [lo] + [hi] == [lo, hi];
    var s2 := Header(s1.(hdr := [lo, hi]), |m|);
    if m == [] {
      assert s.out + [] == s.out;
    } else if |m| > BUF_SIZE - 1 {
      Swallow(s2, m);
      assert s.out + [] == s.out;
    } else {
      LastPayload(s2, m);
      assert [] + m == m;
    }
  }

  // The header is the length, least significant byte first.
  lemma FrameIs(m: seq<u8>)
    requires Framable(m)
    ensures var f := Frame(m); |f| == |m| + 2 && (f[0] as int) + 256 * (f[1] as int) == |m| && f[2..] == m
  {
  }

  // Any list of framed messages: exactly the deliverable ones come out, whole
  // and in order, and the stream is in sync again after them.
  lemma {:induction false} StreamDelivers(ms: seq<seq<u8>>)
    requires forall i | 0 <= i < |ms| :: Framable(ms[i])
    ensures Feed(START, Frames(ms)) == START.(out := Deliverable(ms))
  {
    if ms != [] {
      var k := |ms| - 1;
      StreamDelivers(ms[..k]);
      FeedSplit(START, Frames(ms[..k]), Frame(ms[k]));
      OneFrame(START.(out := Deliverable(ms[..k])), ms[k]);
    }
  }

  lemma FeedNothing(s: State)
    ensures Feed(s, []) == s
  {
  }

  lemma PartOfFrame(s: State, m: seq<u8>, k: nat)
    requires s == START.(out := s.out) && Framable(m) && k < |Frame(m)|
    ensures Feed(s, Frame(m)[..k]).out == s.out
  {
    hide Feed;
    FeedNothing(s);
    var lo, hi := |m| % 0x100, |m| / 0x100;
    if k == 0 {
      assert Frame(m)[..0] == [];
    } else if k == 1 {
      FeedOne(s, [], lo);
      assert Frame(m)[..1] == [] + [lo];
    } else {
      var part := m[..k - 2];
      assert Frame(m)[..k] == [lo] + ([hi] + part);
      FeedFirst(s, lo, [hi] + part);
      var s1 := s.(hdr := [lo]);
      FeedFirst(s1, hi, part);
      assert Length(lo, hi) == |m| && [lo] + [hi] == [lo, hi];
      var s2 := Header(s1.(hdr := [lo, hi]), |m|);
      if |m| > BUF_SIZE - 1 {
        Swallow(s2, part);
      } else {
        Payload(s2, part);
      }
    }
  }

  // Nothing is handed over before its last byte has arrived.
  lemma NoPartialDelivery(ms: seq<seq<u8>>, m: seq<u8>, k: nat)
    requires (forall i | 0 <= i < |ms| :: Framable(ms[i])) && Framable(m) && k < |Frame(m)|
    ensures Feed(START, Frames(ms) + Frame(m)[..k]).out == Deliverable(ms)
  {
    StreamDelivers(ms);
    FeedSplit(START, Frames(ms), Frame(m)[..k]);
    hide Feed, Frame;
    PartOfFrame(START.(out := Deliverable(ms)), m, k);
  }

  // ---- The code ----

  // ble_frame_t; delivered records the calls of the callback.
  class Framer {
    const buf: array<u8>
    var hdr: seq<u8>
    var want: nat
    var have: nat
    var discard: nat
    var delivered: seq<seq<u8>>

    constructor ()
      ensures Valid() && fresh(buf) && Now() == START
    {
      buf := new u8[BUF_SIZE](_ => 0);
      hdr, want, have, discard, delivered := [], 0, 0, 0, [];
    }

    ghost predicate Valid()
      reads this, buf
    {
      && buf.Length == BUF_SIZE && |hdr| <= 2
      && if |hdr| == 2 then 0 < want < BUF_SIZE && have < want && discard == 0 else want == 0 && have == 0
    }

    ghost function Now(): State
      requires Valid()
      reads this, buf
    {
      State(hdr, want, buf[..have], discard, delivered)
    }

    // ble_frame_reset: for a stream known to be broken.
    method Reset()
      requires Valid()
      modifies this
      ensures Valid() && Now() == START.(out := old(delivered))
    {
      hdr, want, have, discard := [], 0, 0, 0;
    }

    // ble_frame_feed: any number of bytes, in as few steps as possible.
    method FeedBytes(data: seq<u8>)
      requires Valid()
      modifies this`hdr, this`want, this`have, this`discard, this`delivered, buf
      ensures Valid() && Now() == Feed(old(Now()), data)
    {
      hide Byte, Header;
      var i := 0;
      while i < |data|
        invariant 0 <= i <= |data| && Valid() && Now() == Feed(old(Now()), data[..i])
        decreases |data| - i
      {
        var n := TakeSome(data[i..]);
        FeedSplit(old(Now()), data[..i], data[i..i + n]);
        assert data[i..][..n] == data[i..i + n] && data[..i + n] == data[..i] + data[i..i + n];
        i := i + n;
      }
      assert data[..i] == data;
    }

    // Any number of writes, however the stream is cut into them, are as good as
    // one: frames sent arrive.
    method FeedPieces(pieces: seq<seq<u8>>, ghost ms: seq<seq<u8>>)
      requires Valid() && forall i | 0 <= i < |ms| :: Framable(ms[i])
      modifies this`hdr, this`want, this`have, this`discard, this`delivered, buf
      ensures Valid() && Now() == Feed(old(Now()), Joined(pieces))
      ensures old(Now()) == START && Joined(pieces) == Frames(ms) ==> Now() == START.(out := Deliverable(ms))
    {
      hide Byte, Header;
      for i := 0 to |pieces|
        invariant Valid() && Now() == Feed(old(Now()), Joined(pieces[..i]))
      {
        FeedBytes(pieces[i]);
        FeedSplit(old(Now()), Joined(pieces[..i]), pieces[i]);
        JoinedNext(pieces, i);
      }
      assert pieces[..|pieces|] == pieces;
      StreamDelivers(ms);
    }

    // As many bytes as belong together.
    method TakeSome(rest: seq<u8>) returns (n: nat)
      requires Valid() && rest != []
      modifies this`hdr, this`want, this`have, this`discard, this`delivered, buf
      ensures Valid() && 0 < n <= |rest| && Now() == Feed(old(Now()), rest[..n])
    {
      hide Byte, Header, Feed;
      if discard > 0 {
        n := TakeDiscarded(rest);
      } else if |hdr| < 2 {
        ghost var was := Now();
        TakeHeader(rest[0]);
        OneByte(was, rest[0]);
        n := 1;
        assert rest[..1] == [rest[0]];
      } else {
        n := TakePayload(rest);
      }
    }

    // Swallowing the payload of a refused message.
    method TakeDiscarded(rest: seq<u8>) returns (n: nat)
      requires Valid() && discard > 0 && rest != []
      modifies this`discard
      ensures Valid() && 0 < n <= |rest| && Now() == Feed(old(Now()), rest[..n])
    {
      n := if |rest| > discard then discard else |rest|;
      Swallow(Now(), rest[..n]);
      discard := discard - n;
    }

    method TakeHeader(b: u8)
      requires Valid() && discard == 0 && |hdr| < 2
      modifies this`hdr, this`want, this`have, this`discard
      ensures Valid() && Now() == Byte(old(Now()), b)
    {
      hdr := hdr + [b];
      if |hdr| < 2 {
        return;
      }
      var length := Length(hdr[0], hdr[1]);
      if length == 0 {
        hdr := [];
      } else if length > BUF_SIZE - 1 {
        discard := length;
        hdr := [];
      } else {
        want := length;
        have := 0;
      }
    }

    method TakePayload(rest: seq<u8>) returns (n: nat)
      requires Valid() && discard == 0 && |hdr| == 2 && rest != []
      modifies this`hdr, this`want, this`have, this`delivered, buf
      ensures Valid() && 0 < n <= |rest| && Now() == Feed(old(Now()), rest[..n])
    {
      hide Byte, Feed;
      ghost var was := Now();
      var room := want - have;
      n := if |rest| > room then room else |rest|;
      if n < room {
        Payload(was, rest[..n]);
      } else {
        LastPayload(was, rest[..n]);
      }
      Copy(rest[..n]);
      have := have + n;
      if have == want {
        delivered := delivered + [buf[..have]];
        hdr, want, have := [], 0, 0;
      }
    }

    method Copy(bytes: seq<u8>)
      requires buf.Length == BUF_SIZE && have + |bytes| <= BUF_SIZE
      modifies buf
      ensures buf[..have + |bytes|] == old(buf[..have]) + bytes
    {
      for k := 0 to |bytes|
        invariant buf[..have + k] == old(buf[..have]) + bytes[..k]
      {
        buf[have + k] := bytes[k];
      }
      assert bytes[..|bytes|] == bytes;
    }
  }
}
