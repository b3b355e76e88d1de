/** SHA-1, against the functional specification of FIPS 180-4. */
module Sha1 {
  import opened Bytes
  import opened HashBytes

  // ---------------------------------------------------------------- FIPS 180-4, sections 2.2.2, 4.1.1 and 4.2.1

  function Rotl(x: bv32, n: nat): bv32
    requires 0 < n < 32
  {
    (x << n) | (x >> (32 - n))
  }

  function Ch(x: bv32, y: bv32, z: bv32): bv32 { (x & y) ^ (!x & z) }
  function Parity(x: bv32, y: bv32, z: bv32): bv32 { x ^ y ^ z }
  function Maj(x: bv32, y: bv32, z: bv32): bv32 { (x & y) ^ (x & z) ^ (y & z) }

  function F(t: nat, x: bv32, y: bv32, z: bv32): bv32 {
    if t < 20 then Ch(x, y, z) else if t < 40 then Parity(x, y, z) else if t < 60 then Maj(x, y, z) else Parity(x, y, z)
  }

  function K(t: nat): bv32 {
    if t < 20 then 0x5a827999 else if t < 40 then 0x6ed9eba1 else if t < 60 then 0x8f1bbcdc else 0xca62c1d6
  }

  // The source combines the terms with OR.
  function ChOr(x: bv32, y: bv32, z: bv32): bv32 { (x & y) | (!x & z) }
  function MajOr(x: bv32, y: bv32, z: bv32): bv32 { (x & y) | (x & z) | (y & z) }

  /** The terms of Ch never overlap, and for Maj OR and XOR agree on three pairwise conjunctions. */
  lemma OrForms(x: bv32, y: bv32, z: bv32)
    ensures ChOr(x, y, z) == Ch(x, y, z) && MajOr(x, y, z) == Maj(x, y, z)
  {
    assert ChOr(x, y, z) == Ch(x, y, z) by {
      assert (x & y) | (!x & z) == (x & y) ^ (!x & z);
    }
    assert MajOr(x, y, z) == Maj(x, y, z) by {
      assert (x & y) | (x & z) | (y & z) == (x & y) ^ (x & z) ^ (y & z);
    }
  }

  // ---------------------------------------------------------------- section 6.1.2: one block

  type Block = b: seq<Byte> | |b| == 64 witness seq(64, _ => 0)

  function BlockWord(b: Block, t: nat): bv32
    requires t < 16
  {
    JoinBytes(b[4 * t], b[4 * t + 1], b[4 * t + 2], b[4 * t + 3])
  }

  function JoinBytes(b3: Byte, b2: Byte, b1: Byte, b0: Byte): bv32 {
    ((b3 as bv32) << 24) | ((b2 as bv32) << 16) | ((b1 as bv32) << 8) | (b0 as bv32)
  }

  /** The message schedule. */
  function W(b: Block, t: nat): bv32 {
    if t < 16 then BlockWord(b, t) else Expand(W(b, t - 3), W(b, t - 8), W(b, t - 14), W(b, t - 16))
  }

  function Expand(w3: bv32, w8: bv32, w14: bv32, w16: bv32): bv32 { Rotl(w3 ^ w8 ^ w14 ^ w16, 1) }

  datatype Regs = Regs(a: bv32, b: bv32, c: bv32, d: bv32, e: bv32)

  function Round(r: Regs, t: nat, w: bv32): Regs {
    Regs(Temp(r.a, F(t, r.b, r.c, r.d), r.e, K(t), w), r.a, Rotl(r.b, 30), r.c, r.d)
  }

  function Temp(a: bv32, f: bv32, e: bv32, k: bv32, w: bv32): bv32 { Rotl(a, 5) + f + e + k + w }

  /** The working variables after `t` rounds. */
  function Rounds(r: Regs, b: Block, t: nat): Regs {
    if t == 0 then r else Round(Rounds(r, b, t - 1), t - 1, W(b, t - 1))
  }

  function Compress(h: Regs, b: Block): Regs {
    var r := Rounds(h, b, 80);
    Regs(Add(h.a, r.a), Add(h.b, r.b), Add(h.c, r.c), Add(h.d, r.d), Add(h.e, r.e))
  }

  function Add(x: bv32, y: bv32): bv32 { x + y }

  ghost function RegsOf(h: array<bv32>): Regs
    requires h.Length == 5
    reads h
  {
    Regs(h[0], h[1], h[2], h[3], h[4])
  }

  method BuildSchedule(block: Block) returns (w: array<bv32>)
    ensures fresh(w) && w.Length == 80 && forall t :: 0 <= t < 80 ==> w[t] == W(block, t)
  {
    hide Expand, BlockWord;
    w := new bv32[80];
    for i := 0 to 16
      invariant forall t :: 0 <= t < i ==> w[t] == W(block, t)
    {
      w[i] := BlockWord(block, i);
    }
    for i := 16 to 80
      invariant forall t :: 0 <= t < i ==> w[t] == W(block, t)
    {
      w[i] := Expand(w[i - 3], w[i - 8], w[i - 14], w[i - 16]);
    }
  }

  /** The choice of function and constant in the main loop. */
  method ChooseRound(i: nat, b: bv32, c: bv32, d: bv32) returns (f: bv32, k: bv32)
    ensures f == F(i, b, c, d) && k == K(i)
  {
    OrForms(b, c, d);
    hide Ch, Maj, Parity, ChOr, MajOr;
    if i < 20 {
      f := ChOr(b, c, d);
      k := 0x5A827999;
    } else if i < 40 {
      f := Parity(b, c, d);
      k := 0x6ED9EBA1;
    } else if i < 60 {
      f := MajOr(b, c, d);
      k := 0x8F1BBCDC;
    } else {
      f := Parity(b, c, d);
      k := 0xCA62C1D6;
    }
  }

  /** `process_block`: the registers updated in place, with the OR forms, compute the specified rounds. */
  method ProcessBlock(block: Block, h: array<bv32>)
    requires h.Length == 5
    modifies h
    ensures RegsOf(h) == Compress(old(RegsOf(h)), block)
  {
    hide W, Rotl, F, K, Temp, Add;
    var w := BuildSchedule(block);
    var a, b, c, d, e := h[0], h[1], h[2], h[3], h[4];
    ghost var start := RegsOf(h);
    for i := 0 to 80
      modifies {}
      invariant Regs(a, b, c, d, e) == Rounds(start, block, i)
    {
      var f, k := ChooseRound(i, b, c, d);
      var temp := Temp(a, f, e, k, w[i]);
      e := d;
      d := c;
      c := Rotl(b, 30);
      b := a;
      a := temp;
    }
    h[0], h[1], h[2], h[3], h[4] := Add(h[0], a), Add(h[1], b), Add(h[2], c), Add(h[3], d), Add(h[4], e);
  }

  // ---------------------------------------------------------------- section 5.1.1: padding

  /** Zero bytes between the marker and the length. */
  function ZeroCount(length: nat): nat { (55 - length) % 64 }

  function Zeros(n: nat): (z: seq<Byte>)
    ensures |z| == n
  {
    seq(n, _ => 0)
  }

  /** The low `n` bytes of `v`, most significant first. */
  function BigEndian(v: nat, n: nat): (b: seq<Byte>)
    ensures |b| == n
  {
    if n == 0 then [] else BigEndian(v / 256, n - 1) + [v % 256]
  }

  function Pad(data: seq<Byte>): seq<Byte> {
    data + [0x80] + Zeros(ZeroCount(|data|)) + BigEndian(8 * |data|, 8)
  }

  /** The padded message is a whole number of blocks, with as few zeros as possible. */
  lemma PadIsMinimal(data: seq<Byte>, zeros: nat)
    ensures |Pad(data)| % 64 == 0
    ensures (|data| + 1 + zeros + 8) % 64 == 0 ==> ZeroCount(|data|) <= zeros
  {
    FirstAligned(|data|, |data| + 1 + zeros);
    AddEight(|data| + 1 + zeros);
    AddEight(|data| + 1 + ZeroCount(|data|));
  }

  lemma AddEight(x: nat)
    ensures (x + 8) % 64 == 0 <==> x % 64 == 56
  {
  }

  lemma {:induction false} BigEndianInjective(v: nat, u: nat, n: nat)
    requires BigEndian(v, n) == BigEndian(u, n) && u <= v < u + Base(n)
    ensures v == u
  {
    if n > 0 {
      assert BigEndian(v, n)[n - 1] == v % 256 && BigEndian(u, n)[n - 1] == u % 256;
      assert BigEndian(v, n)[..n - 1] == BigEndian(v / 256, n - 1)
          && BigEndian(u, n)[..n - 1] == BigEndian(u / 256, n - 1);
      assert v - u == 256 * (v / 256 - u / 256);
      BigEndianInjective(v / 256, u / 256, n - 1);
    }
  }

  /** The length is written most significant byte first. */
  lemma {:induction false} BigEndianIsValue(v: nat, n: nat)
    requires v < Base(n)
    ensures HashBytes.Value(BigEndian(v, n)) == v
  {
    if n > 0 {
      assert v / 256 < Base(n - 1);
      BigEndianIsValue(v / 256, n - 1);
      assert BigEndian(v, n)[..n - 1] == BigEndian(v / 256, n - 1);
    }
  }

  /** Padding is injective on all messages, of whatever length: the number of blocks
      fixes the length to within 64 bytes, the length field, even truncated to 64 bits, the rest. */
  lemma PadInjective(a: seq<Byte>, b: seq<Byte>)
    requires Pad(a) == Pad(b) && |a| <= |b|
    ensures a == b
  {
    var p, n := Pad(a), |Pad(a)|;
    assert p[n - 8..] == BigEndian(8 * |a|, 8) && Pad(b)[n - 8..] == BigEndian(8 * |b|, 8);
    assert Base(8) == 256 * Base(7) == 65536 * Base(6);
    assert |b| - |a| < 64;
    BigEndianInjective(8 * |b|, 8 * |a|, 8);
    assert a == p[..|a|] && b == Pad(b)[..|b|];
  }

  // ---------------------------------------------------------------- the hash

  const H0: Regs := Regs(0x67452301, 0xefcdab89, 0x98badcfe, 0x10325476, 0xc3d2e1f0)

  /** The chaining value after all blocks of a padded message. */
  function Chain(message: seq<Byte>): Regs
    requires |message| % 64 == 0
  {
    if message == [] then H0
    else Compress(Chain(message[..|message| - 64]), message[|message| - 64..])
  }

  function LowByte(y: bv32): Byte { ByteValue((y & 0xFF) as bv8) }

  function ByteValue(z: bv8): Byte { z as int }

  function WordBytes(x: bv32): (b: seq<Byte>)
    ensures |b| == 4
  {
    [LowByte(x >> 24), LowByte(x >> 16), LowByte(x >> 8), LowByte(x)]
  }

  function Flatten(words: seq<bv32>): (b: seq<Byte>)
    ensures |b| == 4 * |words|
  {
    if words == [] then [] else Flatten(words[..|words| - 1]) + WordBytes(words[|words| - 1])
  }

  function Digest(r: Regs): seq<Byte> {
    Flatten([r.a, r.b, r.c, r.d, r.e])
  }

  function HashOf(data: seq<Byte>): Hash160 {
    PadIsMinimal(data, 0);
    var digest := Digest(Chain(Pad(data)));
    digest
  }

  /** The loop that looks for the next length congruent to 56 modulo 64. */
  method PaddedLength(length: nat) returns (newLen: nat)
    ensures newLen == length + 1 + ZeroCount(length)
  {
    ghost var goal := length + 1 + ZeroCount(length);
    FirstAligned(length, length + 1);
    newLen := length + 1;
    while newLen % 64 != 56
      invariant length + 1 <= newLen <= goal
      decreases goal - newLen
    {
      newLen := newLen + 1;
      FirstAligned(length, newLen);
    }
    FirstAligned(length, newLen);
  }

  lemma FirstAligned(length: nat, x: nat)
    ensures (length + 1 + ZeroCount(length)) % 64 == 56
    ensures length < x <= length + 1 + ZeroCount(length) && x % 64 == 56 ==> x == length + 1 + ZeroCount(length)
  {
    var goal, q, m := length + 1 + ZeroCount(length), (55 - length) / 64, x / 64;
    assert 55 - length == 64 * q + ZeroCount(length);
    assert goal == 64 * (-q) + 56;
    Aligned(-q);
    if x % 64 == 56 { assert goal - x == 64 * (-q - m); }
  }

  lemma Aligned(k: int)
    ensures (64 * k + 56) % 64 == 56
  {
  }

  method PadMessage(data: seq<Byte>) returns (padded: array<Byte>)
    ensures fresh(padded) && padded[..] == Pad(data)
  {
    hide BigEndian, ShiftRight, ZeroCount;
    var bitLen := 8 * |data|;
    var newLen := PaddedLength(|data|);
    padded := new Byte[newLen + 8](_ => 0);
    for i := 0 to |data|
      invariant forall k :: 0 <= k < i ==> padded[k] == data[k]
      invariant forall k :: i <= k < newLen + 8 ==> padded[k] == 0
    {
      padded[i] := data[i];
    }
    padded[|data|] := 0x80;
    ghost var front := data + [0x80] + Zeros(ZeroCount(|data|));
    assert padded[..newLen] == front;
    for i := 0 to 8
      invariant padded[..newLen] == front
      invariant forall k :: 0 <= k < i ==> padded[newLen + k] == BigEndian(bitLen, 8)[k]
    {
      BigEndianAt(bitLen, 8, i);
      ghost var before := padded[..newLen];
      padded[newLen + i] := ShiftRight(bitLen, 7 - i) % 256;
      assert padded[..newLen] == before;
    }
    assert padded[newLen..] == BigEndian(bitLen, 8);
    assert padded[..] == padded[..newLen] + padded[newLen..];
  }

  /** `v >> (8 * k)` */
  function ShiftRight(v: nat, k: nat): nat {
    if k == 0 then v else ShiftRight(v / 256, k - 1)
  }

  lemma {:induction false} BigEndianAt(v: nat, n: nat, i: nat)
    requires i < n
    ensures BigEndian(v, n)[i] == ShiftRight(v, n - 1 - i) % 256
  {
    if i < n - 1 { BigEndianAt(v / 256, n - 1, i); }
  }

  /** The loop over the 64-byte chunks. */
  method HashBlocks(message: seq<Byte>) returns (h: array<bv32>)
    requires |message| % 64 == 0
    ensures fresh(h) && h.Length == 5 && RegsOf(h) == Chain(message)
  {
    hide Compress;
    h := new bv32[5][0x67452301, 0xEFCDAB89, 0x98BADCFE, 0x10325476, 0xC3D2E1F0];
    var start := 0;
    while start < |message|
      invariant 0 <= start <= |message| && start % 64 == 0
      invariant fresh(h) && RegsOf(h) == Chain(message[..start])
    {
      NextBlockFits(|message|, start);
      ghost var longer := message[..start + 64];
      assert longer[..start] == message[..start] && longer[start..] == message[start..start + 64];
      ProcessBlock(message[start..start + 64], h);
      start := start + 64;
    }
    assert message[..start] == message;
  }

  lemma NextBlockFits(n: nat, start: nat)
    requires n % 64 == 0 && start % 64 == 0 && start < n
    ensures start + 64 <= n && (start + 64) % 64 == 0
  {
    assert n == 64 * (n / 64) && start == 64 * (start / 64);
  }

  method Hash(data: seq<Byte>) returns (result: Hash160)
    ensures result == HashOf(data)
  {
    PadIsMinimal(data, 0);
    hide Chain, WordBytes, Pad;
    var padded := PadMessage(data);
    var h := HashBlocks(padded[..]);
    result := DigestBytes(h);
  }

  method DigestBytes(h: array<bv32>) returns (result: seq<Byte>)
    requires h.Length == 5
    ensures result == Digest(RegsOf(h))
  {
    hide WordBytes;
    result := [];
    for i := 0 to 5
      invariant result == Flatten(h[..i])
    {
      assert h[..i + 1][..i] == h[..i];
      result := result + WordBytes(h[i]);
    }
    assert h[..5] == [h[0], h[1], h[2], h[3], h[4]];
  }
}
