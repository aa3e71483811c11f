// BIP-32 hardened derivation: src/vault/derive.c. 256-bit numbers are eight
// big-endian limbs.
module Derive {
  import opened Options
  import opened Machine
  import opened Radix
  import opened BigEndian
  import opened HashBlocks

  const BN_LIMBS := 8
  const HARDENED: u32 := 0x8000_0000

  // The order of secp256k1.
  const N: int := 0xFFFFFFFF_FFFFFFFF_FFFFFFFF_FFFFFFFE_BAAEDCE6_AF48A03B_BFD25E8C_D0364141
  const TWO256: int := 0x1_00000000_00000000_00000000_00000000_00000000_00000000_00000000_00000000

  const GROUP_ORDER_N: seq<u32> := [
    0xFFFFFFFF, 0xFFFFFFFF, 0xFFFFFFFF, 0xFFFFFFFE, 0xBAAEDCE6, 0xAF48A03B, 0xBFD25E8C, 0xD0364141
  ]

  // ---- Limbs from the least significant end ----

  lemma BECons(b: nat, d: int, t: seq<int>)
    ensures BE(b, [d] + t) == d * Pow(b, |t|) + BE(b, t)
  {
    BEConcat(b, [d], t);
    assert BE(b, []) == 0 && [d][..0] == [];
    assert BE(b, [d]) == d;
  }

  lemma BETail(b: nat, s: seq<int>, i: nat)
    requires i < |s|
    ensures BE(b, s[i..]) == s[i] * Pow(b, |s| - 1 - i) + BE(b, s[i + 1..])
  {
    BECons(b, s[i], s[i + 1..]);
    assert s[i..] == [s[i]] + s[i + 1..];
  }

  lemma EightLimbs()
    ensures Pow(TWO32, 8) == TWO256
  {
    assert Pow(TWO32, 0) == 1 && Pow(TWO32, 1) == TWO32;
    PowAdd(TWO32, 1, 1);
    PowAdd(TWO32, 2, 2);
    PowAdd(TWO32, 4, 4);
  }

  lemma OrderValue()
    ensures BE(TWO32, GROUP_ORDER_N) == N
  {
    hide BE;
    BEOne(GROUP_ORDER_N, 0);
    BEOne(GROUP_ORDER_N, 1);
    BEOne(GROUP_ORDER_N, 2);
    BEOne(GROUP_ORDER_N, 3);
    BEOne(GROUP_ORDER_N, 4);
    BEOne(GROUP_ORDER_N, 5);
    BEOne(GROUP_ORDER_N, 6);
    BEOne(GROUP_ORDER_N, 7);
    NoLimbs();
    assert GROUP_ORDER_N[..8] == GROUP_ORDER_N && GROUP_ORDER_N[..0] == [];
  }

  lemma NoLimbs()
    ensures BE(TWO32, []) == 0
  {
  }

  lemma BEOne(s: seq<int>, k: nat)
    requires k < |s|
    ensures BE(TWO32, s[..k + 1]) == TWO32 * BE(TWO32, s[..k]) + s[k]
  {
    assert s[..k + 1] == s[..k] + [s[k]];
    BESnoc(TWO32, s[..k], s[k]);
  }

  // One column of a subtraction: d is the difference modulo 2^32, c the borrow
  // so far and c2 the borrow out.
  lemma BorrowColumn(p: int, d: int, below: int, c: int, ai: int, bi: int, a: int, b: int, c2: int)
    requires below == a - b + c * p && d == ai - bi - c + TWO32 * c2
    ensures d * p + below == (ai * p + a) - (bi * p + b) + c2 * (TWO32 * p)
  {
    assert d * p == ai * p - bi * p - c * p + c2 * (TWO32 * p);
  }

  lemma CarryColumn(p: int, d: int, below: int, c: int, ai: int, bi: int, a: int, b: int, c2: int)
    requires below == a + b - c * p && d == ai + bi + c - TWO32 * c2
    ensures d * p + below == (ai * p + a) + (bi * p + b) - c2 * (TWO32 * p)
  {
    assert d * p == ai * p + bi * p + c * p - c2 * (TWO32 * p);
  }

  lemma WrapAround(a: u32, b: u32, c: int)
    requires 0 <= c <= 1
    ensures var t := (a - b - c) % TWO64;
            var borrow := if t / TWO32 != 0 then 1 else 0;
            0 <= t < TWO64 && t % TWO32 == a - b - c + TWO32 * borrow && (borrow == 1 <==> a - b - c < 0)
  {
    var t := (a - b - c) % TWO64;
    if a - b - c < 0 {
      Quotient(a - b - c, TWO64, -1, a - b - c + TWO64);
      Quotient(t, TWO32, TWO32 - 1, a - b - c + TWO32);
    }
  }

  // Subtraction column by column, as both bn_lt and bn_add_mod_n do it.
  method Subtract(a: seq<u32>, b: seq<u32>) returns (d: array<u32>, borrow: u32)
    requires |a| == |b| == BN_LIMBS
    ensures fresh(d) && d.Length == BN_LIMBS && borrow <= 1
    ensures BE(TWO32, d[..]) == BE(TWO32, a) - BE(TWO32, b) + borrow * TWO256
    ensures borrow == 1 <==> BE(TWO32, a) < BE(TWO32, b)
  {
    hide BE, Pow;
    d, borrow := new u32[BN_LIMBS](_ => 0), 0;
    var i := BN_LIMBS;
    NoLimbs();
    PowZero32();
    assert d[8..] == [] && a[8..] == [] && b[8..] == [];
    while i > 0
      invariant 0 <= i <= BN_LIMBS && borrow <= 1
      invariant BE(TWO32, d[i..]) == BE(TWO32, a[i..]) - BE(TWO32, b[i..]) + borrow * Pow(TWO32, BN_LIMBS - i)
    {
      i := i - 1;
      var t: u64 := (a[i] as int - b[i] as int - borrow) % TWO64;
      WrapAround(a[i], b[i], borrow);
      ghost var below, c := d[i + 1..], borrow;
      BETail(TWO32, a, i);
      BETail(TWO32, b, i);
      BECons(TWO32, t % TWO32, below);
      PowNext32(BN_LIMBS - 1 - i);
      d[i] := t % TWO32;
      borrow := if t / TWO32 != 0 then 1 else 0;
      assert d[i..] == [t % TWO32] + below;
      BorrowColumn(Pow(TWO32, BN_LIMBS - 1 - i), t % TWO32, BE(TWO32, below), c, a[i], b[i],
                   BE(TWO32, a[i + 1..]), BE(TWO32, b[i + 1..]), borrow);
    }
    assert a[0..] == a && b[0..] == b && d[0..] == d[..];
    EightLimbs();
    BEBound(TWO32, d[..]);
    BEBound(TWO32, a);
    BEBound(TWO32, b);
  }

  lemma PowZero32()
    ensures Pow(TWO32, 0) == 1
  {
  }

  lemma PowNext32(n: nat)
    ensures Pow(TWO32, n + 1) == TWO32 * Pow(TWO32, n)
  {
  }

  // bn_lt: exact comparison, as the borrow out of a - b.
  method LessThan(a: seq<u32>, b: seq<u32>) returns (less: u32)
    requires |a| == |b| == BN_LIMBS
    ensures less == if BE(TWO32, a) < BE(TWO32, b) then 1 else 0
  {
    hide BE;
    var _, borrow := Subtract(a, b);
    less := borrow;
  }

  method AddLimbs(a: seq<u32>, b: seq<u32>) returns (sum: array<u32>, carry: u32)
    requires |a| == |b| == BN_LIMBS
    ensures fresh(sum) && sum.Length == BN_LIMBS && carry <= 1
    ensures BE(TWO32, sum[..]) == BE(TWO32, a) + BE(TWO32, b) - carry * TWO256
  {
    hide BE, Pow;
    sum, carry := new u32[BN_LIMBS](_ => 0), 0;
    var i := BN_LIMBS;
    NoLimbs();
    PowZero32();
    assert sum[8..] == [] && a[8..] == [] && b[8..] == [];
    while i > 0
      invariant 0 <= i <= BN_LIMBS && carry <= 1
      invariant BE(TWO32, sum[i..]) == BE(TWO32, a[i..]) + BE(TWO32, b[i..]) - carry * Pow(TWO32, BN_LIMBS - i)
    {
      i := i - 1;
      var t: u64 := a[i] as int + b[i] as int + carry;
      ghost var below, c := sum[i + 1..], carry;
      BETail(TWO32, a, i);
      BETail(TWO32, b, i);
      BECons(TWO32, t % TWO32, below);
      PowNext32(BN_LIMBS - 1 - i);
      sum[i] := t % TWO32;
      carry := t / TWO32;
      assert sum[i..] == [t % TWO32] + below;
      CarryColumn(Pow(TWO32, BN_LIMBS - 1 - i), t % TWO32, BE(TWO32, below), c, a[i], b[i],
                  BE(TWO32, a[i + 1..]), BE(TWO32, b[i + 1..]), carry);
    }
    assert a[0..] == a && b[0..] == b && sum[0..] == sum[..];
    EightLimbs();
  }

  // bn_add_mod_n. Both answers are computed; the masks that pick one are
  // written as a choice.
  method AddModN(a: seq<u32>, b: seq<u32>) returns (out: array<u32>)
    requires |a| == |b| == BN_LIMBS && BE(TWO32, a) < N && BE(TWO32, b) < N
    ensures fresh(out) && out.Length == BN_LIMBS && BE(TWO32, out[..]) == (BE(TWO32, a) + BE(TWO32, b)) % N
  {
    hide BE;
    OrderValue();
    BEBound(TWO32, a);
    BEBound(TWO32, b);
    EightLimbs();
    var sum, carry := AddLimbs(a, b);
    BEBound(TWO32, sum[..]);
    var reduced, borrow := Subtract(sum[..], GROUP_ORDER_N);
    BEBound(TWO32, reduced[..]);
    out := if carry == 1 || borrow == 0 then reduced else sum;
    TakeIsRight(BE(TWO32, a) + BE(TWO32, b), BE(TWO32, sum[..]), carry, BE(TWO32, reduced[..]), borrow,
                BE(TWO32, out[..]));
  }

  lemma TakeIsRight(total: int, sum: int, carry: int, reduced: int, borrow: int, out: int)
    requires 0 <= total < 2 * N && 0 <= carry <= 1 && 0 <= borrow <= 1 && 0 <= sum < TWO256
    requires sum == total - carry * TWO256 && reduced == sum - N + borrow * TWO256
    requires (borrow == 1 <==> sum < N) && 0 <= out < TWO256
    requires out == if carry == 1 || borrow == 0 then reduced else sum
    ensures out == total % N
  {
    if total < N {
      Quotient(total, N, 0, total);
    } else {
      Quotient(total, N, 1, total - N);
    }
  }

  // ---- Bytes and limbs ----

  function Word32(b0: int, b1: int, b2: int, b3: int): int {
    0x100_0000 * b0 + 0x1_0000 * b1 + 0x100 * b2 + b3
  }

  lemma FourBytes(bytes: seq<u8>, i: nat)
    requires 4 * i + 4 <= |bytes|
    ensures 0 <= Word32(bytes[4 * i], bytes[4 * i + 1], bytes[4 * i + 2], bytes[4 * i + 3]) < TWO32
    ensures BE(TWO8, bytes[..4 * i + 4])
         == TWO32 * BE(TWO8, bytes[..4 * i]) + Word32(bytes[4 * i], bytes[4 * i + 1], bytes[4 * i + 2], bytes[4 * i
            + 3])
  {
    hide BE;
    OneByte(bytes, 4 * i);
    OneByte(bytes, 4 * i + 1);
    OneByte(bytes, 4 * i + 2);
    OneByte(bytes, 4 * i + 3);
  }

  lemma OneByte(s: seq<int>, k: nat)
    requires k < |s|
    ensures BE(TWO8, s[..k + 1]) == TWO8 * BE(TWO8, s[..k]) + s[k]
  {
    assert s[..k + 1] == s[..k] + [s[k]];
    BESnoc(TWO8, s[..k], s[k]);
  }

  // bn_load.
  method Load(bytes: seq<u8>) returns (limbs: array<u32>)
    requires |bytes| == 32
    ensures fresh(limbs) && limbs.Length == BN_LIMBS && BE(TWO32, limbs[..]) == BE(TWO8, bytes)
  {
    hide BE, Word32;
    limbs := new u32[BN_LIMBS](_ => 0);
    NothingLoaded();
    assert limbs[..0] == [] && bytes[..0] == [];
    for i := 0 to BN_LIMBS
      invariant BE(TWO32, limbs[..i]) == BE(TWO8, bytes[..4 * i])
    {
      ghost var done := limbs[..i];
      FourBytes(bytes, i);
      limbs[i] := Word32(bytes[4 * i], bytes[4 * i + 1], bytes[4 * i + 2], bytes[4 * i + 3]);
      BESnoc(TWO32, done, limbs[i]);
      assert limbs[..i + 1] == done + [limbs[i]];
    }
    assert limbs[..8] == limbs[..] && bytes[..32] == bytes;
  }

  lemma NothingLoaded()
    ensures BE(TWO32, []) == 0 && BE(TWO8, []) == 0
  {
  }

  lemma Split32(w: u32)
    ensures w == Word32(w / 0x100_0000, w / 0x1_0000 % 0x100, w / 0x100 % 0x100, w % 0x100)
  {
    assert w / 0x1_0000 == w / 0x100 / 0x100 && w / 0x100_0000 == w / 0x1_0000 / 0x100;
  }

  // bn_store.
  method Store(limbs: seq<u32>, out: array<u8>)
    requires |limbs| == BN_LIMBS && out.Length == 32
    modifies out
    ensures BE(TWO8, out[..]) == BE(TWO32, limbs)
  {
    hide BE, Word32;
    NothingLoaded();
    assert limbs[..0] == [] && out[..0] == [];
    for i := 0 to BN_LIMBS
      invariant BE(TWO32, limbs[..i]) == BE(TWO8, out[..4 * i])
    {
      ghost var done := out[..4 * i];
      var w := limbs[i];
      out[4 * i] := w / 0x100_0000;
      out[4 * i + 1] := w / 0x1_0000 % 0x100;
      out[4 * i + 2] := w / 0x100 % 0x100;
      out[4 * i + 3] := w % 0x100;
      Split32(w);
      assert out[..4 * i] == done && out[..][..4 * i] == done && out[..][..4 * i + 4] == out[..4 * i + 4];
      FourBytes(out[..], i);
      BEOne(limbs, i);
    }
    assert limbs[..8] == limbs && out[..32] == out[..];
  }

  lemma {:induction false} AllZero(s: seq<u32>)
    ensures BE(TWO32, s) == 0 <==> forall i | 0 <= i < |s| :: s[i] == 0
  {
    if s != [] {
      var k := |s| - 1;
      AllZero(s[..k]);
      BEBound(TWO32, s[..k]);
    }
  }

  // bn_is_zero: the limbs ORed together.
  method IsZero(a: seq<u32>) returns (zero: u32)
    requires |a| == BN_LIMBS
    ensures zero == if BE(TWO32, a) == 0 then 1 else 0
  {
    var acc: nat := 0;
    for i := 0 to BN_LIMBS
      invariant acc == 0 <==> forall k | 0 <= k < i :: a[k] == 0
    {
      OrIsZero(acc, a[i]);
      acc := Or(acc, a[i]);
    }
    AllZero(a);
    zero := if acc == 0 then 1 else 0;
  }

  // ---- BIP-32 ----

  // HMAC-SHA512, about which nothing is assumed but the length of its result.
  datatype Hmac = Hmac(f: (seq<u8>, seq<u8>) -> seq<u8>) {
    function Of(key: seq<u8>, data: seq<u8>): (i: seq<u8>)
      ensures |i| == 64
    {
      var i := f(key, data);
      if |i| == 64 then i else Zeros(64)
    }
  }

  datatype Node = Node(key: seq<u8>, chainCode: seq<u8>) {
    // A usable private key: 32 bytes for a number in [1, n).
    ghost predicate Usable() {
      |key| == 32 && |chainCode| == 32 && 0 < BE(TWO8, key) < N
    }
  }

  // The data hashed for hardened child i: 0x00 || ser256(k) || ser32(i).
  function ChildData(key: seq<u8>, i: u32): seq<u8> {
    [0] + key + [i / 0x100_0000, i / 0x1_0000 % 0x100, i / 0x100 % 0x100, i % 0x100]
  }

  // CKDpriv for a hardened index, or None in the two cases where BIP-32 says
  // to go on to the next one.
  ghost function Child(h: Hmac, parent: Node, i: nat): Option<(int, seq<u8>)>
    requires i < HARDENED as int
  {
    var hash := h.Of(parent.chainCode, ChildData(parent.key, i + HARDENED as int));
    var il := BE(TWO8, hash[..32]);
    var k := (il + BE(TWO8, parent.key)) % N;
    if il >= N || k == 0 then None else Some((k, hash[32..]))
  }

  // The order of secp256k1, written as SEC 2 does: 2^256 less a small number.
  lemma OrderIs()
    ensures N == TWO256 - 432420386565659656852420866394968145599
  {
  }

  // 37 bytes: a zero, the key, and the index, most significant byte first.
  ghost predicate IsChildData(data: seq<u8>, key: seq<u8>, i: int) {
    |data| == 37 && data[0] == 0 && data[1..33] == key && BE(TWO8, data[33..]) == i
  }

  lemma IndexSpells(i: u32)
    ensures var s: seq<u8> := [i / 0x100_0000, i / 0x1_0000 % 0x100, i / 0x100 % 0x100, i % 0x100];
            BE(TWO8, s) == i
  {
    var s: seq<u8> := [i / 0x100_0000, i / 0x1_0000 % 0x100, i / 0x100 % 0x100, i % 0x100];
    assert s[..3] == [s[0], s[1], s[2]] && s[..3][..2] == [s[0], s[1]] && s[..3][..2][..1] == [s[0]];
    assert [s[0]][..0] == [];
    assert BE(TWO8, [s[0]]) == s[0];
    assert BE(TWO8, [s[0], s[1]]) == 0x100 * (s[0] as int) + s[1];
    assert BE(TWO8, [s[0], s[1], s[2]]) == 0x100 * (0x100 * (s[0] as int) + s[1]) + s[2];
    FourDigits(i);
  }

  lemma FourDigits(i: u32)
    ensures i == 0x100 * (0x100 * (0x100 * (i / 0x100_0000) + i / 0x1_0000 % 0x100) + i / 0x100 % 0x100) + i % 0x100
  {
    Quotient(i / 0x1_0000, 0x100, i / 0x100_0000, i / 0x1_0000 % 0x100);
    Quotient(i / 0x100, 0x100, i / 0x1_0000, i / 0x100 % 0x100);
  }

  lemma ChildDataIs(key: seq<u8>, i: u32)
    requires |key| == 32
    ensures IsChildData(ChildData(key, i), key, i)
    ensures forall data | IsChildData(data, key, i) :: data == ChildData(key, i)
  {
    hide BE;
    var own := ChildData(key, i);
    IndexSpells(i);
    assert own[33..] == [i / 0x100_0000, i / 0x1_0000 % 0x100, i / 0x100 % 0x100, i % 0x100];
    forall data | IsChildData(data, key, i)
      ensures data == own
    {
      BEInjective(TWO8, data[33..], own[33..]);
      assert data == [data[0]] + data[1..33] + data[33..];
      assert own == [own[0]] + own[1..33] + own[33..];
    }
  }

  // What BIP-32 says of a hardened child, from the data on.
  lemma ChildIs(h: Hmac, parent: Node, i: nat, data: seq<u8>)
    requires parent.Usable() && i < 0x8000_0000 && IsChildData(data, parent.key, i + 0x8000_0000)
    ensures var hash := h.Of(parent.chainCode, data);
            var il, k := BE(TWO8, hash[..32]), BE(TWO8, parent.key);
            if il >= N || (il + k) % N == 0 then Child(h, parent, i) == None
            else Child(h, parent, i) == Some(((il + k) % N, hash[32..]))
  {
    hide BE;
    ChildDataIs(parent.key, i + 0x8000_0000);
  }

  // derive_xprv_t, whose buffers the caller provides.
  class Xprv {
    const key: array<u8>
    const chainCode: array<u8>

    constructor ()
      ensures Valid() && fresh(key) && fresh(chainCode)
    {
      key := new u8[32](_ => 0);
      chainCode := new u8[32](_ => 0);
    }

    ghost predicate Valid() {
      key.Length == 32 && chainCode.Length == 32 && key != chainCode
    }

    ghost function Now(): Node
      reads key, chainCode
    {
      Node(key[..], chainCode[..])
    }
  }

  method CopyBytes(src: seq<u8>, dst: array<u8>)
    requires |src| == dst.Length
    modifies dst
    ensures dst[..] == src
  {
    for i := 0 to dst.Length
      invariant dst[..i] == src[..i]
    {
      dst[i] := src[i];
    }
  }

  // key_in_range.
  method KeyInRange(key: seq<u8>) returns (ok: bool)
    requires |key| == 32
    ensures ok <==> 0 < BE(TWO8, key) < N
  {
    hide BE;
    OrderValue();
    var k := Load(key);
    BEBound(TWO32, k[..]);
    var zero := IsZero(k[..]);
    var less := LessThan(k[..], GROUP_ORDER_N);
    ok := zero == 0 && less == 1;
  }

  // derive_node_import: a node with an unusable key is refused, and then
  // nothing is written.
  method NodeImport(bytes: seq<u8>, out: Xprv) returns (ok: bool)
    requires |bytes| == 64 && out.Valid()
    modifies out.key, out.chainCode
    ensures ok <==> 0 < BE(TWO8, bytes[..32]) < N
    ensures out.Now() == if ok then Node(bytes[..32], bytes[32..]) else old(out.Now())
  {
    hide BE;
    ok := KeyInRange(bytes[..32]);
    if ok {
      CopyBytes(bytes[..32], out.key);
      CopyBytes(bytes[32..], out.chainCode);
    }
  }

  // One attempt of the loop in derive_child_hardened.
  method TryChild(h: Hmac, parentKey: seq<u8>, chain: seq<u8>, kpar: seq<u32>, attempt: u32)
    returns (child: Option<seq<u32>>, tail: seq<u8>)
    requires Node(parentKey, chain).Usable() && |kpar| == BN_LIMBS && BE(TWO32, kpar) == BE(TWO8, parentKey)
    requires attempt < HARDENED
    ensures child.None? <==> Child(h, Node(parentKey, chain), attempt) == None
    ensures child.Some? ==> |child.value| == BN_LIMBS && |tail| == 32
    ensures child.Some? ==> Child(h, Node(parentKey, chain), attempt) == Some((BE(TWO32, child.value), tail))
  {
    hide BE;
    OrderValue();
    var data := ChildData(parentKey, attempt + HARDENED as int);
    var i := h.Of(chain, data);
    tail := i[32..];
    var il := Load(i[..32]);
    var less := LessThan(il[..], GROUP_ORDER_N);
    if less == 0 {
      return None, tail;
    }
    var sum := AddModN(il[..], kpar);
    var zero := IsZero(sum[..]);
    if zero == 1 {
      return None, tail;
    }
    child := Some(sum[..]);
  }

  // derive_child_hardened: the child at the first index from the requested one
  // on that has one. out may be the parent itself.
  method ChildHardened(h: Hmac, parent: Xprv, index: u32, out: Xprv) returns (ok: bool, ghost found: nat)
    requires parent.Valid() && out.Valid() && parent.Now().Usable()
    modifies out.key, out.chainCode
    ensures index >= HARDENED ==> !ok
    ensures !ok ==> out.Now() == old(out.Now())
    ensures !ok && index < HARDENED ==> forall j | index <= j < HARDENED :: Child(h, old(parent.Now()), j) == None
    ensures ok ==> index <= found < HARDENED as int && out.Now().Usable()
    ensures ok ==> Child(h, old(parent.Now()), found) == Some((BE(TWO8, out.key[..]), out.chainCode[..]))
    ensures ok ==> forall j | index <= j < found :: Child(h, old(parent.Now()), j) == None
  {
    hide BE, Child;
    found := index;
    if index >= HARDENED {
      return false, found;
    }
    ghost var was := parent.Now();
    var key, chain := parent.key[..], parent.chainCode[..];
    var kpar := Load(key);
    ghost var parentLimbs := kpar[..];
    var attempt: int := index;
    while attempt < HARDENED as int
      invariant index <= attempt <= HARDENED as int && out.Now() == old(out.Now())
      invariant kpar[..] == parentLimbs && forall j | index <= j < attempt :: Child(h, was, j) == None
      decreases HARDENED as int - attempt
    {
      var child, tail := TryChild(h, key, chain, kpar[..], attempt);
      if child.Some? {
        ChildInRange(h, was, attempt);
        Store(child.value, out.key);
        CopyBytes(tail, out.chainCode);
        return true, attempt;
      }
      attempt := attempt + 1;
    }
    ok := false;
  }

  lemma ChildInRange(h: Hmac, parent: Node, i: nat)
    requires i < HARDENED as int && Child(h, parent, i).Some?
    ensures 0 < Child(h, parent, i).value.0 < N && |Child(h, parent, i).value.1| == 32
  {
  }
}
