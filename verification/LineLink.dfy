// Newline framing over links that accept what they can: the sender with its
// repair of torn lines (src/proto/line_tx.c) and the receiver
// (src/proto/line_proto.c).
module LineLink {
  import opened Machine
  import opened Pieces

  const NEWLINE: u8 := 10
  const RETURN: u8 := 13
  const BUF_SIZE := 2048

  predicate IsEnd(b: u8) {
    b == NEWLINE || b == RETURN
  }

  predicate OneLine(line: seq<u8>) {
    forall i | 0 <= i < |line| :: line[i] != NEWLINE
  }

  // ---- Sending ----

  datatype Result = SentOk | Dropped | DroppedPartial

  // A driver that takes any part of what it is offered, and waits only so
  // often before giving up.
  class Wire {
    var sent: seq<u8>
    var patience: nat
    ghost var gaveUp: nat

    constructor (patience: nat)
      ensures sent == [] && this.patience == patience && gaveUp == 0
    {
      sent, this.patience, gaveUp := [], patience, 0;
    }

    method Write(data: seq<u8>) returns (queued: nat)
      modifies this`sent
      ensures queued <= |data| && sent == old(sent) + data[..queued]
    {
      queued :| 0 <= queued <= |data|;
      sent := sent + data[..queued];
    }

    method Wait() returns (again: bool)
      modifies this`patience, this`gaveUp
      ensures again ==> patience < old(patience)
      ensures patience <= old(patience) && gaveUp == old(gaveUp) + if again then 0 else 1
    {
      again := *;
      if patience == 0 {
        again := false;
      } else if again {
        patience := patience - 1;
      }
      if !again {
        gaveUp := gaveUp + 1;
      }
    }
  }

  // The lines as they appear on the wire: all but a torn last one ended.
  function Text(lines: seq<seq<u8>>, torn: bool): seq<u8> {
    if lines == [] then []
    else
      Text(lines[..|lines| - 1], false) + lines[|lines| - 1]
      + (if torn then [] else [NEWLINE])
  }

  lemma TextNext(lines: seq<seq<u8>>, line: seq<u8>, torn: bool)
    ensures Text(lines + [line], torn) == Text(lines, false) + line + (if torn then [] else [NEWLINE])
  {
    assert (lines + [line])[..|lines|] == lines;
  }

  // Ending a torn line.
  lemma Repair(lines: seq<seq<u8>>)
    ensures lines != [] ==> Text(lines, false) == Text(lines, true) + [NEWLINE]
  {
    if lines != [] {
      var front := Text(lines[..|lines| - 1], false) + lines[|lines| - 1];
      assert front + [] + [NEWLINE] == front + [NEWLINE];
    }
  }

  class LineTx {
    var needsResync: bool
    const wire: Wire
    ghost var lines: seq<seq<u8>>

    constructor (wire: Wire)
      requires wire.sent == []
      ensures Valid() && this.wire == wire && lines == [] && !needsResync
    {
      this.wire := wire;
      needsResync, lines := false, [];
    }

    // The wire holds exactly these lines, the last one open if it is torn.
    ghost predicate Valid()
      reads this, wire
    {
      && wire.sent == Text(lines, needsResync)
      && (forall i | 0 <= i < |lines| :: OneLine(lines[i]))
      && (needsResync ==> lines != [] && lines[|lines| - 1] != [])
    }

    method WriteAll(data: seq<u8>) returns (ok: bool, accepted: nat)
      modifies wire
      ensures accepted <= |data| && wire.sent == old(wire.sent) + data[..accepted] && (ok <==> accepted == |data|)
      ensures wire.gaveUp == old(wire.gaveUp) + if ok then 0 else 1
    {
      var sent := 0;
      assert wire.sent + data[..0] == wire.sent;
      while sent < |data|
        invariant sent <= |data| && wire.sent == old(wire.sent) + data[..sent] && wire.gaveUp == old(wire.gaveUp)
        decreases |data| - sent, wire.patience
      {
        var queued := wire.Write(data[sent..]);
        assert data[..sent] + data[sent..][..queued] == data[..sent + queued];
        if queued > 0 {
          sent := sent + queued;
        } else {
          var again := wire.Wait();
          if !again {
            return false, sent;
          }
        }
      }
      return true, sent;
    }

    // The newline that ends a torn line, before anything else.
    method Resync() returns (ok: bool)
      requires Valid() && needsResync
      modifies this`needsResync, wire
      ensures Valid() && needsResync == !ok && wire.gaveUp == old(wire.gaveUp) + if ok then 0 else 1
    {
      Repair(lines);
      var accepted;
      ok, accepted := WriteAll([NEWLINE]);
      assert [NEWLINE][..1] == [NEWLINE];
      if ok {
        needsResync := false;
      } else {
        assert Text(lines, true) + [] == Text(lines, true);
      }
    }

    // line_tx_send. What was accepted of the payload is a line of its own,
    // whatever follows.
    method Send(payload: seq<u8>) returns (result: Result, ghost accepted: nat)
      requires Valid() && OneLine(payload)
      modifies this`needsResync, this`lines, wire
      ensures Valid() && accepted <= |payload|
      ensures result == SentOk ==> !needsResync && lines == old(lines) + [payload]
      ensures result == Dropped ==> lines == old(lines) && (needsResync ==> old(needsResync))
      ensures result == DroppedPartial ==> needsResync && 0 < accepted && lines == old(lines) + [payload[..accepted]]
      ensures wire.gaveUp == old(wire.gaveUp) + if result == SentOk then 0 else 1
    {
      if needsResync {
        var repaired := Resync();
        if !repaired {
          return Dropped, 0;
        }
      }
      result, accepted := SendLine(payload);
    }

    // The payload and its newline, on a line of their own.
    method SendLine(payload: seq<u8>) returns (result: Result, ghost accepted: nat)
      requires Valid() && !needsResync && OneLine(payload)
      modifies this`needsResync, this`lines, wire
      ensures Valid() && accepted <= |payload|
      ensures result == SentOk ==> !needsResync && lines == old(lines) + [payload]
      ensures result == Dropped ==> lines == old(lines) && !needsResync
      ensures result == DroppedPartial ==> needsResync && 0 < accepted && lines == old(lines) + [payload[..accepted]]
      ensures wire.gaveUp == old(wire.gaveUp) + if result == SentOk then 0 else 1
    {
      hide Text;
      var ok, taken := WriteAll(payload);
      accepted := taken;
      if ok {
        assert payload[..taken] == payload;
        var ended, one := WriteAll([NEWLINE]);
        if ended {
          assert [NEWLINE][..1] == [NEWLINE];
          TextNext(lines, payload, false);
          lines := lines + [payload];
          return SentOk, accepted;
        }
        assert [NEWLINE][..0] == [];
      }
      if taken > 0 {
        TextNext(lines, payload[..taken], true);
        lines := lines + [payload[..taken]];
        needsResync := true;
        return DroppedPartial, accepted;
      }
      result := Dropped;
    }
  }

  ghost predicate AtBoundary(stream: seq<u8>) {
    stream == [] || stream[|stream| - 1] == NEWLINE
  }

  // The stream is at a line boundary exactly when no repair is pending.
  lemma BoundaryIffWhole(lines: seq<seq<u8>>, torn: bool)
    requires (forall i | 0 <= i < |lines| :: OneLine(lines[i])) && (torn ==> lines != [] && lines[|lines| - 1] != [])
    ensures AtBoundary(Text(lines, torn)) <==> !torn
  {
    if torn {
      var last := lines[|lines| - 1];
      assert Text(lines, true)[|Text(lines, true)| - 1] == last[|last| - 1];
    }
  }

  // ---- Receiving ----

  datatype Rx = Rx(buf: seq<u8>, overflowed: bool, out: seq<seq<u8>>)

  const IDLE: Rx := Rx([], false, [])

  function RxByte(s: Rx, b: u8): Rx {
    if IsEnd(b) then
      if s.overflowed then s.(buf := [], overflowed := false)
      else if s.buf != [] then s.(buf := [], out := s.out + [s.buf])
      else s
    else if |s.buf| + 1 < BUF_SIZE then s.(buf := s.buf + [b])
    else s.(overflowed := true)
  }

  function RxFeed(s: Rx, data: seq<u8>): Rx {
    if data == [] then s else RxByte(RxFeed(s, data[..|data| - 1]), data[|data| - 1])
  }

  lemma RxNext(s: Rx, data: seq<u8>, b: u8)
    ensures RxFeed(s, data + [b]) == RxByte(RxFeed(s, data), b)
  {
    assert (data + [b])[..|data|] == data;
  }

  // However the stream is cut.
  lemma {:induction false} RxSplit(s: Rx, a: seq<u8>, b: seq<u8>)
    ensures RxFeed(s, a + b) == RxFeed(RxFeed(s, a), b)
  {
    if b == [] {
      assert a + b == a;
    } else {
      var k := |b| - 1;
      RxSplit(s, a, b[..k]);
      assert a + b == (a + b[..k]) + [b[k]];
      RxNext(s, a + b[..k], b[k]);
    }
  }

  // A line as a receiver has to see it: neither terminator inside.
  predicate NoEnds(line: seq<u8>) {
    forall i | 0 <= i < |line| :: !IsEnd(line[i])
  }

  lemma {:induction false} RxLine(s: Rx, line: seq<u8>)
    requires s.buf == [] && !s.overflowed && NoEnds(line)
    ensures var t := RxFeed(s, line);
            && t.out == s.out && t.overflowed == (|line| >= BUF_SIZE)
            && t.buf == if |line| < BUF_SIZE then line else line[..BUF_SIZE - 1]
  {
    hide RxFeed;
    if line == [] {
      RxNothing(s);
    } else {
      var k := |line| - 1;
      RxLine(s, line[..k]);
      assert line[..k] + [line[k]] == line;
      RxNext(s, line[..k], line[k]);
    }
  }

  lemma RxNothing(s: Rx)
    ensures RxFeed(s, []) == s
  {
  }

  predicate Fits(line: seq<u8>) {
    1 <= |line| <= 2047
  }

  function Fitting(lines: seq<seq<u8>>): seq<seq<u8>> {
    if lines == [] then []
    else Fitting(lines[..|lines| - 1]) + (if Fits(lines[|lines| - 1]) then [lines[|lines| - 1]] else [])
  }

  // Lines with whichever terminator each of them has.
  function Ended(lines: seq<seq<u8>>, ends: seq<u8>): seq<u8>
    requires |ends| == |lines|
  {
    if lines == [] then []
    else
      var k := |lines| - 1;
      Ended(lines[..k], ends[..k]) + lines[k] + [ends[k]]
  }

  lemma EndedNext(lines: seq<seq<u8>>, ends: seq<u8>)
    requires |ends| == |lines| > 0
    ensures var k := |lines| - 1; Ended(lines, ends) == Ended(lines[..k], ends[..k]) + (lines[k] + [ends[k]])
  {
  }

  lemma RxEndedLine(s: Rx, line: seq<u8>, end: u8)
    requires s.buf == [] && !s.overflowed && NoEnds(line) && IsEnd(end)
    ensures RxFeed(s, line + [end]) == Rx([], false, s.out + if Fits(line) then [line] else [])
  {
    RxLine(s, line);
    RxNext(s, line, end);
    if !Fits(line) {
      assert s.out + [] == s.out;
    }
  }

  // Exactly the non-empty lines that fit are delivered, in order, whatever
  // ends them.
  lemma {:induction false} ReceivesLines(lines: seq<seq<u8>>, ends: seq<u8>)
    requires |ends| == |lines|
    requires forall i | 0 <= i < |lines| :: NoEnds(lines[i]) && IsEnd(ends[i])
    ensures RxFeed(IDLE, Ended(lines, ends)) == IDLE.(out := Fitting(lines))
  {
    if lines != [] {
      var k := |lines| - 1;
      EndedNext(lines, ends);
      hide RxByte, RxFeed, Ended;
      ReceivesLines(lines[..k], ends[..k]);
      RxSplit(IDLE, Ended(lines[..k], ends[..k]), lines[k] + [ends[k]]);
      RxEndedLine(IDLE.(out := Fitting(lines[..k])), lines[k], ends[k]);
    }
  }

  lemma {:induction false} TextIsEnded(lines: seq<seq<u8>>, ends: seq<u8>)
    requires |ends| == |lines| && forall i | 0 <= i < |ends| :: ends[i] == NEWLINE
    ensures Text(lines, false) == Ended(lines, ends)
  {
    if lines != [] {
      TextIsEnded(lines[..|lines| - 1], ends[..|lines| - 1]);
    }
  }

  // Both ends together: what the sender put on the wire, replies and torn
  // prefixes alike, arrives line by line, never two of them glued; a torn last
  // line waits for its end.
  lemma EndToEnd(lines: seq<seq<u8>>, torn: bool)
    requires (forall i | 0 <= i < |lines| :: NoEnds(lines[i])) && (torn ==> lines != [])
    ensures RxFeed(IDLE, Text(lines, torn)).out == Fitting(if torn then lines[..|lines| - 1] else lines)
  {
    var whole := if torn then lines[..|lines| - 1] else lines;
    var ends: seq<u8> := seq(|whole|, i => NEWLINE);
    TextIsEnded(whole, ends);
    ReceivesLines(whole, ends);
    if torn {
      var last := lines[|lines| - 1];
      assert Text(lines, true) == Text(whole, false) + last;
      RxSplit(IDLE, Text(whole, false), last);
      RxLine(IDLE.(out := Fitting(whole)), last);
    }
  }

  // line_proto_t; delivered records the calls of the callback.
  class LineProto {
    const buf: array<u8>
    var len: nat
    var overflowed: bool
    var delivered: seq<seq<u8>>

    constructor ()
      ensures Valid() && fresh(buf) && Now() == IDLE
    {
      buf := new u8[BUF_SIZE](_ => 0);
      len, overflowed, delivered := 0, false, [];
    }

    ghost predicate Valid()
      reads this, buf
    {
      buf.Length == BUF_SIZE && len < BUF_SIZE
    }

    ghost function Now(): Rx
      requires Valid()
      reads this, buf
    {
      Rx(buf[..len], overflowed, delivered)
    }

    // line_proto_feed.
    method FeedBytes(data: seq<u8>)
      requires Valid()
      modifies this`len, this`overflowed, this`delivered, buf
      ensures Valid() && Now() == RxFeed(old(Now()), data)
    {
      hide RxByte;
      for i := 0 to |data|
        invariant Valid() && Now() == RxFeed(old(Now()), data[..i])
      {
        FeedByte(data[i]);
        RxNext(old(Now()), data[..i], data[i]);
        assert data[..i + 1] == data[..i] + [data[i]];
      }
      assert data[..|data|] == data;
    }

    // Any number of reads, however the stream is cut into them, are as good as
    // one: lines sent arrive.
    method FeedPieces(pieces: seq<seq<u8>>, ghost lines: seq<seq<u8>>, ghost torn: bool)
      requires Valid() && (forall i | 0 <= i < |lines| :: NoEnds(lines[i])) && (torn ==> lines != [])
      modifies this`len, this`overflowed, this`delivered, buf
      ensures Valid() && Now() == RxFeed(old(Now()), Joined(pieces))
      ensures old(Now()) == IDLE && Joined(pieces) == Text(lines, torn) ==>
                delivered == Fitting(if torn then lines[..|lines| - 1] else lines)
    {
      hide RxByte;
      for i := 0 to |pieces|
        invariant Valid() && Now() == RxFeed(old(Now()), Joined(pieces[..i]))
      {
        FeedBytes(pieces[i]);
        RxSplit(old(Now()), Joined(pieces[..i]), pieces[i]);
        JoinedNext(pieces, i);
      }
      assert pieces[..|pieces|] == pieces;
      EndToEnd(lines, torn);
    }

    method FeedByte(c: u8)
      requires Valid()
      modifies this`len, this`overflowed, this`delivered, buf
      ensures Valid() && Now() == RxByte(old(Now()), c)
    {
      if IsEnd(c) {
        if overflowed {
          len := 0;
          overflowed := false;
          return;
        }
        if len > 0 {
          delivered := delivered + [buf[..len]];
          len := 0;
        }
        return;
      }
      if len + 1 < BUF_SIZE {
        ghost var was := buf[..len];
        buf[len] := c;
        len := len + 1;
        assert buf[..len] == was + [c];
      } else {
        overflowed := true;
      }
    }
  }
}
