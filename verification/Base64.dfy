// base64 with '=' padding (RFC 4648 section 4): src/proto/base64.c.
module Base64 {
  import opened Options
  import opened Machine
  import opened Radix

  // ENCODE_TABLE, in pieces of at most thirteen characters.
  const UPPER_1 := "ABCDEFGHIJKLM"
  const UPPER_2 := "NOPQRSTUVWXYZ"
  const LOWER_1 := "abcdefghijklm"
  const LOWER_2 := "nopqrstuvwxyz"
  const OTHER := "0123456789+/"
  const ENCODE_TABLE: string := UPPER_1 + UPPER_2 + LOWER_1 + LOWER_2 + OTHER

  // ---- What the two directions mean ----

  function EncodeChar(x: int): char
    requires 0 <= x < 64
  {
    if x < 26 then (x + 'A' as int) as char
    else if x < 52 then (x - 26 + 'a' as int) as char
    else if x < 62 then (x - 52 + '0' as int) as char
    else if x == 62 then '+'
    else '/'
  }

  function DecodeChar(c: char): int {
    if 'A' <= c <= 'Z' then c as int - 'A' as int
    else if 'a' <= c <= 'z' then c as int - 'a' as int + 26
    else if '0' <= c <= '9' then c as int - '0' as int + 52
    else if c == '+' then 62
    else if c == '/' then 63
    else -1
  }

  lemma TableEntry(x: int)
    requires 0 <= x < 64
    ensures ENCODE_TABLE[x] == EncodeChar(x)
  {
    if x < 26 {
      assert x < 13 ==> UPPER_1[x] == EncodeChar(x);
      assert x >= 13 ==> UPPER_2[x - 13] == EncodeChar(x);
    } else if x < 52 {
      assert x < 39 ==> LOWER_1[x - 26] == EncodeChar(x);
      assert x >= 39 ==> LOWER_2[x - 39] == EncodeChar(x);
    } else {
      assert OTHER[x - 52] == EncodeChar(x);
    }
  }

  lemma CharRoundTrip(x: int)
    requires 0 <= x < 64
    ensures DecodeChar(EncodeChar(x)) == x && EncodeChar(x) != '='
  {
  }

  // One group: three bytes as one number, in four sextets.
  function Group(b0: u8, b1: u8, b2: u8): int {
    0x1_0000 * b0 + 0x100 * b1 + b2
  }

  function Sextet(v: int, k: nat): (x: int)
    requires k < 4
    ensures 0 <= x < 64
  {
    match k
    case 0 => v / 0x4_0000 % 64
    case 1 => v / 0x1000 % 64
    case 2 => v / 0x40 % 64
    case 3 => v % 64
  }

  // The text of a byte string. What is left over after the last full group
  // takes two or three characters, and '=' fills up.
  function Encode(bytes: seq<u8>): string {
    if bytes == [] then ""
    else if |bytes| == 1 then
      var v := Group(bytes[0], 0, 0);
      [EncodeChar(Sextet(v, 0)), EncodeChar(Sextet(v, 1)), '=', '=']
    else if |bytes| == 2 then
      var v := Group(bytes[0], bytes[1], 0);
      [EncodeChar(Sextet(v, 0)), EncodeChar(Sextet(v, 1)), EncodeChar(Sextet(v, 2)), '=']
    else FullGroup(bytes[0], bytes[1], bytes[2]) + Encode(bytes[3..])
  }

  function FullGroup(b0: u8, b1: u8, b2: u8): (g: string)
    ensures |g| == 4
  {
    var v := Group(b0, b1, b2);
    [EncodeChar(Sextet(v, 0)), EncodeChar(Sextet(v, 1)), EncodeChar(Sextet(v, 2)), EncodeChar(Sextet(v, 3))]
  }

  function EncodedLen(n: nat): nat {
    (n + 2) / 3 * 4
  }

  function DecodedLen(n: nat): nat {
    n / 4 * 3
  }

  // How many of the last two characters are '='.
  function Padding(text: string): nat
    requires |text| >= 4
  {
    (if text[|text| - 1] == '=' then 1 else 0) + (if text[|text| - 2] == '=' then 1 else 0)
  }

  predicate WellFormed(text: string) {
    && |text| % 4 == 0
    && (|text| > 0 ==> forall i | 0 <= i < |text| - Padding(text) :: text[i] != '=' && DecodeChar(text[i]) >= 0)
  }

  function DecodePadded(c: char): int {
    if c == '=' then 0 else DecodeChar(c)
  }

  // The bytes of one group of four characters.
  function Bytes(c0: char, c1: char, c2: char, c3: char): seq<u8>
    requires DecodeChar(c0) >= 0 && DecodeChar(c1) >= 0 && DecodePadded(c2) >= 0 && DecodePadded(c3) >= 0
  {
    var v := 0x4_0000 * DecodeChar(c0) + 0x1000 * DecodeChar(c1) + 0x40 * DecodePadded(c2) + DecodePadded(c3);
    [v / 0x1_0000 % 0x100]
    + (if c2 != '=' then [v / 0x100 % 0x100] else [])
    + (if c3 != '=' then [v % 0x100] else [])
  }

  predicate Decodable(text: string) {
    && |text| % 4 == 0
    && forall i | 0 <= i < |text| ::
         (if i % 4 < 2 then DecodeChar(text[i]) else DecodePadded(text[i])) >= 0
  }

  function DecodeGroups(text: string): seq<u8>
    requires Decodable(text)
  {
    if text == "" then []
    else Bytes(text[0], text[1], text[2], text[3]) + DecodeGroups(text[4..])
  }

  function Decode(text: string): Option<seq<u8>> {
    if WellFormed(text) then
      WellFormedIsDecodable(text);
      Some(DecodeGroups(text))
    else None
  }

  lemma WellFormedIsDecodable(text: string)
    requires WellFormed(text)
    ensures Decodable(text)
  {
    forall i | 0 <= i < |text|
      ensures (if i % 4 < 2 then DecodeChar(text[i]) else DecodePadded(text[i])) >= 0
    {
      if i >= |text| - Padding(text) {
        assert i >= |text| - 2;
      }
    }
  }

  // ---- Decoding undoes encoding ----

  // The sextets, straight from the bytes.
  lemma SextetsOf(b0: u8, b1: u8, b2: u8)
    ensures var v := Group(b0, b1, b2);
            && Sextet(v, 0) == b0 / 4 && Sextet(v, 1) == b0 % 4 * 16 + b1 / 16
            && Sextet(v, 2) == b1 % 16 * 4 + b2 / 64 && Sextet(v, 3) == b2 % 64
  {
    var v := Group(b0, b1, b2);
    Quotient(v, 0x4_0000, b0 / 4, 0x1_0000 * (b0 % 4) + 0x100 * b1 + b2);
    Quotient(v, 0x1000, 16 * b0 + b1 / 16, 0x100 * (b1 % 16) + b2);
    Quotient(16 * b0 + b1 / 16, 64, b0 / 4, 16 * (b0 % 4) + b1 / 16);
    Quotient(v, 0x40, 0x400 * b0 + 4 * b1 + b2 / 64, b2 % 64);
    Quotient(0x400 * b0 + 4 * b1 + b2 / 64, 64, 16 * b0 + b1 / 16, 4 * (b1 % 16) + b2 / 64);
  }

  // And back, for any characters that decode to these sextets.
  lemma BytesOf(b0: u8, b1: u8, b2: u8, c0: char, c1: char, c2: char, c3: char)
    requires DecodeChar(c0) == b0 / 4 && DecodeChar(c1) == b0 % 4 * 16 + b1 / 16
    requires DecodePadded(c2) == b1 % 16 * 4 + b2 / 64 && DecodePadded(c3) == b2 % 64
    ensures Bytes(c0, c1, c2, c3) == [b0] + (if c2 != '=' then [b1] else []) + (if c3 != '=' then [b2] else [])
  {
    hide DecodeChar, DecodePadded;
    var v := 0x4_0000 * DecodeChar(c0) + 0x1000 * DecodeChar(c1) + 0x40 * DecodePadded(c2) + DecodePadded(c3);
    assert v == 0x1_0000 * b0 + 0x100 * b1 + b2;
    Quotient(v, 0x1_0000, b0, 0x100 * b1 + b2);
    Quotient(v, 0x100, 0x100 * b0 + b1, b2);
    Quotient(0x100 * b0 + b1, 0x100, b0, b1);
    Quotient(b0, 0x100, 0, b0);
  }

  // The four characters of a group.
  predicate IsText(c: char, x: int) {
    0 <= x < 64 && c == EncodeChar(x)
  }

  lemma TextDecodes(c: char, x: int)
    requires IsText(c, x)
    ensures c != '=' && DecodeChar(c) == x && DecodePadded(c) == x
  {
    CharRoundTrip(x);
  }

  lemma FullGroupRoundTrip(b0: u8, b1: u8, b2: u8)
    ensures var g := FullGroup(b0, b1, b2);
            && |g| == 4 && (forall i | 0 <= i < 4 :: g[i] != '=' && DecodeChar(g[i]) >= 0)
            && Bytes(g[0], g[1], g[2], g[3]) == [b0, b1, b2]
  {
    var v := Group(b0, b1, b2);
    SextetsOf(b0, b1, b2);
    hide Sextet, Group, EncodeChar, DecodeChar, DecodePadded, Bytes;
    var g := FullGroup(b0, b1, b2);
    TextDecodes(g[0], Sextet(v, 0));
    TextDecodes(g[1], Sextet(v, 1));
    TextDecodes(g[2], Sextet(v, 2));
    TextDecodes(g[3], Sextet(v, 3));
    BytesOf(b0, b1, b2, g[0], g[1], g[2], g[3]);
  }

  lemma OneGroup(g: string)
    requires |g| == 4 && WellFormed(g)
    ensures Decodable(g) && Decode(g) == Some(Bytes(g[0], g[1], g[2], g[3]))
  {
    WellFormedIsDecodable(g);
    hide Bytes;
    assert g[4..] == "" && DecodeGroups("") == [];
    assert Bytes(g[0], g[1], g[2], g[3]) + [] == Bytes(g[0], g[1], g[2], g[3]);
  }

  lemma OneByteRoundTrip(b0: u8)
    ensures WellFormed(Encode([b0])) && Decode(Encode([b0])) == Some([b0])
  {
    var v := Group(b0, 0, 0);
    SextetsOf(b0, 0, 0);
    hide Sextet, Group, EncodeChar, DecodeChar, Bytes, Decode, DecodeGroups;
    var g := Encode([b0]);
    TextDecodes(g[0], Sextet(v, 0));
    TextDecodes(g[1], Sextet(v, 1));
    BytesOf(b0, 0, 0, g[0], g[1], g[2], g[3]);
    OneGroup(g);
    assert [b0] + [] + [] == [b0];
  }

  lemma TwoBytesRoundTrip(b0: u8, b1: u8)
    ensures WellFormed(Encode([b0, b1])) && Decode(Encode([b0, b1])) == Some([b0, b1])
  {
    var v := Group(b0, b1, 0);
    SextetsOf(b0, b1, 0);
    hide Sextet, Group, EncodeChar, DecodeChar, Bytes, Decode, DecodeGroups;
    var g := Encode([b0, b1]);
    TextDecodes(g[0], Sextet(v, 0));
    TextDecodes(g[1], Sextet(v, 1));
    TextDecodes(g[2], Sextet(v, 2));
    BytesOf(b0, b1, 0, g[0], g[1], g[2], g[3]);
    OneGroup(g);
    assert [b0] + [b1] + [] == [b0, b1];
  }

  lemma DecodeSplits(text: string)
    requires Decodable(text) && |text| >= 4
    ensures Decodable(text[4..])
    ensures DecodeChar(text[0]) >= 0 && DecodeChar(text[1]) >= 0
    ensures DecodePadded(text[2]) >= 0 && DecodePadded(text[3]) >= 0
    ensures DecodeGroups(text) == Bytes(text[0], text[1], text[2], text[3]) + DecodeGroups(text[4..])
  {
    hide DecodeChar, Bytes;
    DecodableRest(text);
  }

  lemma EncodeSplits(bytes: seq<u8>)
    requires |bytes| >= 3
    ensures Encode(bytes) == FullGroup(bytes[0], bytes[1], bytes[2]) + Encode(bytes[3..])
  {
  }

  lemma LongRoundTrip(b0: u8, b1: u8, b2: u8, rest: seq<u8>, text: string)
    requires WellFormed(text) && Decode(text) == Some(rest)
    ensures WellFormed(FullGroup(b0, b1, b2) + text)
    ensures Decode(FullGroup(b0, b1, b2) + text) == Some([b0, b1, b2] + rest)
  {
    FullGroupRoundTrip(b0, b1, b2);
    hide FullGroup, Bytes, WellFormed, Decode, DecodeChar;
    PrependGroup(FullGroup(b0, b1, b2), text);
  }

  lemma {:induction false} RoundTrip(bytes: seq<u8>)
    ensures WellFormed(Encode(bytes)) && Decode(Encode(bytes)) == Some(bytes)
  {
    hide EncodeChar, Sextet, Group;
    if |bytes| == 1 {
      OneByteRoundTrip(bytes[0]);
      assert bytes == [bytes[0]];
    } else if |bytes| == 2 {
      TwoBytesRoundTrip(bytes[0], bytes[1]);
      assert bytes == [bytes[0], bytes[1]];
    } else if bytes != [] {
      EncodeSplits(bytes);
      hide FullGroup, WellFormed, Decode, Encode;
      RoundTrip(bytes[3..]);
      LongRoundTrip(bytes[0], bytes[1], bytes[2], bytes[3..], Encode(bytes[3..]));
      assert bytes == [bytes[0], bytes[1], bytes[2]] + bytes[3..];
    }
  }

  // The four characters of a group spell the number its three bytes spell.
  ghost predicate Quartet(text: string, at: nat, v: int) {
    && at + 4 <= |text| && 0 <= DecodeChar(text[at]) < 64 && 0 <= DecodeChar(text[at + 1]) < 64
    && 0 <= DecodeChar(text[at + 2]) < 64 && 0 <= DecodeChar(text[at + 3]) < 64
    && v == 0x4_0000 * DecodeChar(text[at]) + 0x1000 * DecodeChar(text[at + 1]) + 0x40 * DecodeChar(text[at + 2])
            + DecodeChar(text[at + 3])
  }

  lemma GroupSpells(b0: u8, b1: u8, b2: u8)
    ensures Quartet(FullGroup(b0, b1, b2), 0, 0x1_0000 * (b0 as int) + 0x100 * (b1 as int) + b2)
  {
    var v := Group(b0, b1, b2);
    SextetsOf(b0, b1, b2);
    hide Sextet, Group, EncodeChar, DecodeChar, DecodePadded;
    var g := FullGroup(b0, b1, b2);
    TextDecodes(g[0], Sextet(v, 0));
    TextDecodes(g[1], Sextet(v, 1));
    TextDecodes(g[2], Sextet(v, 2));
    TextDecodes(g[3], Sextet(v, 3));
  }

  lemma QuartetMoves(g: string, rest: string, at: nat, v: int)
    requires |g| == 4 && Quartet(rest, at, v)
    ensures Quartet(g + rest, at + 4, v)
  {
    hide DecodeChar;
    var text := g + rest;
    assert text[at + 4] == rest[at] && text[at + 5] == rest[at + 1];
    assert text[at + 6] == rest[at + 2] && text[at + 7] == rest[at + 3];
  }

  // RFC 4648 section 4: every three bytes are four characters of that number;
  lemma {:induction false} EncodeSpells(bytes: seq<u8>, i: nat)
    requires 3 * i + 3 <= |bytes|
    ensures Quartet(Encode(bytes), 4 * i, 0x1_0000 * (bytes[3 * i] as int) + 0x100 * (bytes[3 * i + 1] as int)
                                          + bytes[3 * i + 2])
  {
    hide Encode, FullGroup, Quartet, DecodeChar;
    EncodeSplits(bytes);
    if i == 0 {
      GroupSpells(bytes[0], bytes[1], bytes[2]);
      QuartetFirst(FullGroup(bytes[0], bytes[1], bytes[2]), Encode(bytes[3..]),
                   0x1_0000 * (bytes[0] as int) + 0x100 * (bytes[1] as int) + bytes[2]);
    } else {
      EncodeSpells(bytes[3..], i - 1);
      var j := 3 * (i - 1);
      assert bytes[3..][j] == bytes[j + 3] && bytes[3..][j + 1] == bytes[j + 4] && bytes[3..][j + 2] == bytes[j + 5];
      QuartetMoves(FullGroup(bytes[0], bytes[1], bytes[2]), Encode(bytes[3..]), 4 * (i - 1),
                   0x1_0000 * (bytes[3 * i] as int) + 0x100 * (bytes[3 * i + 1] as int) + bytes[3 * i + 2]);
    }
  }

  lemma QuartetFirst(g: string, rest: string, v: int)
    requires |g| == 4 && Quartet(g, 0, v)
    ensures Quartet(g + rest, 0, v)
  {
    hide DecodeChar;
  }

  // one byte left over is two characters and "==", two are three and "=".
  lemma RestSpells(rest: seq<u8>)
    requires 1 <= |rest| <= 2
    ensures var t := Encode(rest);
            && |t| == 4 && 0 <= DecodeChar(t[0]) < 64 && 0 <= DecodeChar(t[1]) < 64 && t[3] == '='
            && (|rest| == 1 ==>
                  t[2] == '=' && 0x40 * DecodeChar(t[0]) + DecodeChar(t[1]) == 0x10 * (rest[0] as int))
            && (|rest| == 2 ==>
                  && 0 <= DecodeChar(t[2]) < 64
                  && 0x1000 * DecodeChar(t[0]) + 0x40 * DecodeChar(t[1]) + DecodeChar(t[2])
                     == 4 * (0x100 * (rest[0] as int) + rest[1]))
  {
    var b1: u8 := if |rest| == 2 then rest[1] else 0;
    var v := Group(rest[0], b1, 0);
    SextetsOf(rest[0], b1, 0);
    hide Sextet, Group, EncodeChar, DecodeChar, DecodePadded;
    var t := Encode(rest);
    TextDecodes(t[0], Sextet(v, 0));
    TextDecodes(t[1], Sextet(v, 1));
    if |rest| == 2 {
      TextDecodes(t[2], Sextet(v, 2));
    }
  }

  lemma {:induction false} EncodedLength(bytes: seq<u8>)
    ensures |Encode(bytes)| == EncodedLen(|bytes|)
  {
    hide EncodeChar, Sextet, Group;
    if |bytes| >= 3 {
      EncodeSplits(bytes);
      hide Encode, FullGroup;
      EncodedLength(bytes[3..]);
    }
  }

  lemma PrependWellFormed(g: string, rest: string)
    requires |g| == 4 && WellFormed(rest) && forall i | 0 <= i < 4 :: g[i] != '=' && DecodeChar(g[i]) >= 0
    ensures WellFormed(g + rest)
  {
    hide DecodeChar;
    var text := g + rest;
    if rest == "" {
      assert Padding(text) == 0;
    } else {
      assert Padding(text) == Padding(rest);
      forall i | 0 <= i < |text| - Padding(text)
        ensures text[i] != '=' && DecodeChar(text[i]) >= 0
      {
        if i >= 4 {
          assert text[i] == rest[i - 4];
        }
      }
    }
  }

  lemma PrependGroup(g: string, rest: string)
    requires |g| == 4 && WellFormed(rest) && forall i | 0 <= i < 4 :: g[i] != '=' && DecodeChar(g[i]) >= 0
    ensures WellFormed(g + rest)
    ensures Decode(g + rest) == Some(Bytes(g[0], g[1], g[2], g[3]) + Decode(rest).value)
  {
    hide DecodeChar, Bytes, DecodeGroups, Decodable, WellFormed;
    PrependWellFormed(g, rest);
    WellFormedIsDecodable(g + rest);
    DecodeSplits(g + rest);
    assert (g + rest)[4..] == rest;
  }

  // ---- The two loops ----

  // One group more at the end.
  lemma {:induction false} EncodeSnoc(bytes: seq<u8>, b0: u8, b1: u8, b2: u8)
    requires |bytes| % 3 == 0
    ensures Encode(bytes + [b0, b1, b2]) == Encode(bytes) + FullGroup(b0, b1, b2)
  {
    hide Encode, FullGroup;
    NothingEncoded();
    var all := bytes + [b0, b1, b2];
    EncodeSplits(all);
    if bytes == [] {
      assert all[3..] == [];
    } else {
      EncodeSplits(bytes);
      EncodeSnoc(bytes[3..], b0, b1, b2);
      assert all[3..] == bytes[3..] + [b0, b1, b2];
    }
  }

  lemma {:induction false} EncodeTail(bytes: seq<u8>, k: nat)
    requires k <= |bytes| < k + 3 && k % 3 == 0
    ensures Encode(bytes) == Encode(bytes[..k]) + Encode(bytes[k..])
    decreases k
  {
    hide Encode, FullGroup;
    NothingEncoded();
    if k == 0 {
      assert bytes[..k] == [] && bytes[k..] == bytes;
    } else {
      EncodeSplits(bytes);
      EncodeSplits(bytes[..k]);
      EncodeTail(bytes[3..], k - 3);
      assert bytes[..k][3..] == bytes[3..][..k - 3] && bytes[3..][k - 3..] == bytes[k..];
    }
  }

  method EncodeGroup(b0: u8, b1: u8, b2: u8, out: array<char>, o: nat)
    requires o + 4 <= out.Length
    modifies out
    ensures out[..] == old(out[..o]) + FullGroup(b0, b1, b2) + old(out[o + 4..])
  {
    hide Sextet, EncodeChar, Group;
    var v := Group(b0, b1, b2);
    TableEntry(Sextet(v, 0));
    TableEntry(Sextet(v, 1));
    TableEntry(Sextet(v, 2));
    TableEntry(Sextet(v, 3));
    out[o] := ENCODE_TABLE[Sextet(v, 0)];
    out[o + 1] := ENCODE_TABLE[Sextet(v, 1)];
    out[o + 2] := ENCODE_TABLE[Sextet(v, 2)];
    out[o + 3] := ENCODE_TABLE[Sextet(v, 3)];
  }

  // base64_encode: the text, a NUL, and nothing beyond it.
  method EncodeInto(input: seq<u8>, out: array<char>)
    requires out.Length >= EncodedLen(|input|) + 1
    modifies out
    ensures out[..EncodedLen(|input|)] == Encode(input) && out[EncodedLen(|input|)] == '\0'
    ensures out[EncodedLen(|input|) + 1..] == old(out[EncodedLen(|input|) + 1..])
  {
    hide Encode, FullGroup, EncodeChar, Sextet, Group;
    ghost var was := out[..];
    var i, o := EncodeFullGroups(input, out);
    EncodeTail(input, i);
    EncodedLength(input);
    EncodedLength(input[i..]);
    o := EncodeRest(input[i..], out, o);
    assert out[..o] == Encode(input) && out[o..] == was[o..];
    out[o] := '\0';
  }

  method EncodeFullGroups(input: seq<u8>, out: array<char>) returns (i: nat, o: nat)
    requires out.Length >= (|input| + 2) / 3 * 4
    modifies out
    ensures i <= |input| < i + 3 && i % 3 == 0 && o == i / 3 * 4
    ensures out[..o] == Encode(input[..i]) && out[o..] == old(out[..])[o..]
  {
    hide Encode, FullGroup, EncodeChar, Sextet, Group;
    i, o := 0, 0;
    ghost var was := out[..];
    NothingEncoded();
    while i + 3 <= |input|
      invariant i % 3 == 0 && o == i / 3 * 4 && i <= |input|
      invariant out[..o] == Encode(input[..i]) && out[o..] == was[o..]
    {
      ghost var done := out[..o];
      EncodeSnoc(input[..i], input[i], input[i + 1], input[i + 2]);
      assert input[..i + 3] == input[..i] + [input[i], input[i + 1], input[i + 2]];
      EncodeGroup(input[i], input[i + 1], input[i + 2], out, o);
      i, o := i + 3, o + 4;
      assert out[..o] == done + FullGroup(input[i - 3], input[i - 2], input[i - 1]);
    }
  }

  method EncodeRest(rest: seq<u8>, out: array<char>, at: nat) returns (o: nat)
    requires |rest| < 3 && at + |Encode(rest)| <= out.Length
    modifies out
    ensures o == at + |Encode(rest)| && out[..] == old(out[..at]) + Encode(rest) + old(out[..])[o..]
  {
    hide Encode, FullGroup;
    o := at;
    NothingEncoded();
    if |rest| == 1 {
      OneLeft(rest[0]);
      assert rest == [rest[0]];
      EncodeGroup(rest[0], 0, 0, out, o);
      out[o + 2] := '=';
      out[o + 3] := '=';
      o := o + 4;
    } else if |rest| == 2 {
      TwoLeft(rest[0], rest[1]);
      assert rest == [rest[0], rest[1]];
      EncodeGroup(rest[0], rest[1], 0, out, o);
      out[o + 3] := '=';
      o := o + 4;
    }
  }

  lemma NothingEncoded()
    ensures Encode([]) == ""
  {
  }

  lemma OneLeft(b0: u8)
    ensures |FullGroup(b0, 0, 0)| == 4 && Encode([b0]) == FullGroup(b0, 0, 0)[..2] + "=="
  {
  }

  lemma TwoLeft(b0: u8, b1: u8)
    ensures |FullGroup(b0, b1, 0)| == 4 && Encode([b0, b1]) == FullGroup(b0, b1, 0)[..3] + "="
  {
  }

  lemma DecodablePrefix(text: string, k: nat)
    requires Decodable(text) && k % 4 == 0 && k <= |text|
    ensures Decodable(text[..k])
  {
    hide DecodeChar;
  }

  // What is known of the characters of a group.
  predicate GroupAt(text: string, k: nat) {
    && k + 4 <= |text| && DecodeChar(text[k]) >= 0 && DecodeChar(text[k + 1]) >= 0
    && DecodePadded(text[k + 2]) >= 0 && DecodePadded(text[k + 3]) >= 0
  }

  function BytesAt(text: string, k: nat): seq<u8>
    requires GroupAt(text, k)
  {
    Bytes(text[k], text[k + 1], text[k + 2], text[k + 3])
  }

  lemma GroupIs(text: string, k: nat)
    requires Decodable(text) && k % 4 == 0 && k < |text|
    ensures GroupAt(text, k)
  {
    hide DecodeChar;
  }

  lemma GroupMoves(text: string, k: nat)
    requires 4 <= k && GroupAt(text, k)
    ensures GroupAt(text[4..], k - 4) && BytesAt(text[4..], k - 4) == BytesAt(text, k)
    ensures text[..k + 4][4..] == text[4..][..k] && text[..k][4..] == text[4..][..k - 4]
  {
    hide DecodeChar, DecodePadded, Bytes;
  }

  lemma {:induction false} DecodeSnoc(text: string, k: nat)
    requires Decodable(text) && k % 4 == 0 && k < |text|
    ensures GroupAt(text, k) && Decodable(text[..k]) && Decodable(text[..k + 4])
    ensures DecodeGroups(text[..k + 4]) == DecodeGroups(text[..k]) + BytesAt(text, k)
    decreases k
  {
    hide DecodeChar, DecodePadded, Bytes, DecodeGroups, Decodable;
    GroupIs(text, k);
    DecodablePrefix(text, k);
    DecodablePrefix(text, k + 4);
    DecodeSplits(text[..k + 4]);
    NothingDecoded();
    if k == 0 {
      assert text[..4][4..] == "" && text[..k] == "";
    } else {
      DecodeSplits(text[..k]);
      DecodableRest(text);
      GroupMoves(text, k);
      hide GroupAt, BytesAt;
      DecodeSnoc(text[4..], k - 4);
    }
  }

  lemma DecodableRest(text: string)
    requires Decodable(text) && |text| >= 4
    ensures Decodable(text[4..])
  {
    hide DecodeChar;
    forall i | 0 <= i < |text| - 4
      ensures (if i % 4 < 2 then DecodeChar(text[4..][i]) else DecodePadded(text[4..][i])) >= 0
    {
      assert text[4..][i] == text[i + 4] && (i + 4) % 4 == i % 4;
    }
  }

  // base64_decode: refuses before it writes anything.
  method DecodeInto(text: string, out: array<u8>) returns (ok: bool, outLen: nat)
    requires out.Length >= DecodedLen(|text|)
    modifies out
    ensures ok <==> WellFormed(text)
    ensures ok ==> outLen <= out.Length && Decode(text) == Some(out[..outLen])
    ensures !ok ==> out[..] == old(out[..])
  {
    outLen := 0;
    if |text| % 4 != 0 {
      return false, 0;
    }
    if |text| == 0 {
      return true, 0;
    }
    var pad := Padding(text);
    for i := 0 to |text| - pad
      invariant forall k | 0 <= k < i :: text[k] != '=' && DecodeChar(text[k]) >= 0
      invariant out[..] == old(out[..])
    {
      if text[i] == '=' || DecodeChar(text[i]) < 0 {
        return false, 0;
      }
    }
    WellFormedIsDecodable(text);
    outLen := DecodeLoop(text, out);
    ok := true;
  }

  method DecodeLoop(text: string, out: array<u8>) returns (outLen: nat)
    requires out.Length >= DecodedLen(|text|) && Decodable(text)
    modifies out
    ensures outLen <= out.Length && out[..outLen] == DecodeGroups(text)
  {
    assert |text| % 4 == 0;
    hide DecodeChar, DecodePadded, Bytes, DecodeGroups, Decodable;
    var i, o := 0, 0;
    NothingDecoded();
    while i < |text|
      invariant i % 4 == 0 && i <= |text| && o <= i / 4 * 3 && Decodable(text[..i])
      invariant out[..o] == DecodeGroups(text[..i])
    {
      DecodeSnoc(text, i);
      o := DecodeGroup(text[i], text[i + 1], text[i + 2], text[i + 3], out, o);
      i := i + 4;
    }
    assert text[..i] == text;
    outLen := o;
  }

  lemma NothingDecoded()
    ensures Decodable("") && DecodeGroups("") == []
  {
  }

  method DecodeGroup(c0: char, c1: char, c2: char, c3: char, out: array<u8>, at: nat) returns (o: nat)
    requires DecodeChar(c0) >= 0 && DecodeChar(c1) >= 0 && DecodePadded(c2) >= 0 && DecodePadded(c3) >= 0
    requires at + 3 <= out.Length
    modifies out
    ensures at <= o <= at + 3 && out[..o] == old(out[..at]) + Bytes(c0, c1, c2, c3)
  {
    hide DecodeChar;
    o := at;
    var v := 0x4_0000 * DecodeChar(c0) + 0x1000 * DecodeChar(c1) + 0x40 * DecodePadded(c2) + DecodePadded(c3);
    out[o] := v / 0x1_0000 % 0x100;
    o := o + 1;
    if c2 != '=' {
      out[o] := v / 0x100 % 0x100;
      o := o + 1;
    }
    if c3 != '=' {
      out[o] := v % 0x100;
      o := o + 1;
    }
  }
}
