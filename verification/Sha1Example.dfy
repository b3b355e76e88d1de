/** The example of FIPS 180 for the one-block message "abc", followed word by word and
    round by round. It fixes what the structure of the specification leaves open: the
    rotations, the constants, the initial value and the order of bytes and registers. */
module Sha1Example {
  import opened Bytes
  import opened Sha1

  // ---------------------------------------------------------------- words and bytes

  lemma SmallByte(b: Byte)
    ensures b as bv32 <= 0xFF && b as bv32 == (b as bv8) as bv32
  {
  }

  /** The bytes of every word, as the digest writes them, are read back as that word. */
  lemma WordBytesInverse(x: bv32, b: Block, t: nat)
    requires t < 16 && b[4 * t..4 * t + 4] == WordBytes(x)
    ensures BlockWord(b, t) == x
  {
    var w := b[4 * t..4 * t + 4];
    assert w[0] == b[4 * t] && w[1] == b[4 * t + 1] && w[2] == b[4 * t + 2] && w[3] == b[4 * t + 3];
    LowBytesRead(x);
    hide LowByte, JoinBytes;
  }

  lemma LowBytesRead(x: bv32)
    ensures JoinBytes(LowByte(x >> 24), LowByte(x >> 16), LowByte(x >> 8), LowByte(x)) == x
  {
    hide LowByte;
    LowByteBack(x >> 24);
    LowByteBack(x >> 16);
    LowByteBack(x >> 8);
    LowByteBack(x);
    Reassembled(x);
  }

  lemma LowByteBack(y: bv32)
    ensures LowByte(y) as bv32 == y & 0xFF
  {
    ByteBack((y & 0xFF) as bv8);
    Narrow(y & 0xFF);
    hide ByteValue;
  }

  lemma ByteBack(z: bv8)
    ensures ByteValue(z) as bv32 == z as bv32
  {
    assert ByteValue(z) as bv8 == z;
    hide ByteValue;
    SmallByte(ByteValue(z));
  }

  lemma Narrow(y: bv32)
    requires y <= 0xFF
    ensures (y as bv8) as bv32 == y
  {
  }

  lemma Reassembled(x: bv32)
    ensures (((x >> 24) & 0xFF) << 24) | (((x >> 16) & 0xFF) << 16) | (((x >> 8) & 0xFF) << 8) | (x & 0xFF) == x
  {
  }

  // ---------------------------------------------------------------- the padded message

  function Abc(): Block {
    [0x61, 0x62, 0x63, 0x80] + Zeros(59) + [24]
  }

  lemma AbcIsPadded()
    ensures Pad([0x61, 0x62, 0x63]) == Abc()
  {
    assert ZeroCount(3) == 52;
    SmallBigEndian(24, 7);
    assert BigEndian(24, 8) == Zeros(7) + [24];
  }

  lemma {:induction false} SmallBigEndian(v: Byte, n: nat)
    ensures BigEndian(v, n + 1) == Zeros(n) + [v]
  {
    if n > 0 {
      SmallBigEndian(0, n - 1);
    }
  }

  // ---------------------------------------------------------------- the schedule

  lemma EarlyWord(b: Block, t: nat, b3: Byte, b2: Byte, b1: Byte, b0: Byte)
    requires t < 16 && b[4 * t] == b3 && b[4 * t + 1] == b2 && b[4 * t + 2] == b1 && b[4 * t + 3] == b0
    ensures W(b, t) == JoinBytes(b3, b2, b1, b0)
  {
    hide Abc, JoinBytes;
  }

  lemma ZeroWord(b: Block, t: nat)
    requires b == Abc() && 1 <= t < 15
    ensures W(b, t) == 0
  {
    EarlyWord(b, t, 0, 0, 0, 0);
    hide W;
  }

  lemma LaterWord(b: Block, t: nat, w3: bv32, w8: bv32, w14: bv32, w16: bv32, w: bv32)
    requires 16 <= t
    requires W(b, t - 3) == w3 && W(b, t - 8) == w8 && W(b, t - 14) == w14 && W(b, t - 16) == w16
    requires Expand(w3, w8, w14, w16) == w
    ensures W(b, t) == w
  {
    hide Expand;
  }

  lemma AbcWord(b: Block)
    requires b == Abc()
    ensures W(b, 0) == 0x61626380
  {
    EarlyWord(b, 0, 0x61, 0x62, 0x63, 0x80);
    hide W;
  }

  lemma Words0(b: Block)
    requires b == Abc()
    ensures W(b, 0) == 0x61626380 && forall t :: 1 <= t < 8 ==> W(b, t) == 0
  {
    AbcWord(b);
    forall t | 1 <= t < 8 ensures W(b, t) == 0 { ZeroWord(b, t); }
    hide W;
  }

  lemma Words8(b: Block)
    requires b == Abc()
    ensures W(b, 15) == 24 && forall t :: 8 <= t < 15 ==> W(b, t) == 0
  {
    EarlyWord(b, 15, 0, 0, 0, 24);
    forall t | 8 <= t < 15 ensures W(b, t) == 0 { ZeroWord(b, t); }
    hide W;
  }

  lemma Words16(b: Block)
    requires b == Abc()
    ensures W(b, 16) == 0xc2c4c700 && W(b, 17) == 0x00000000
    ensures W(b, 18) == 0x00000030 && W(b, 19) == 0x85898e01
    ensures W(b, 20) == 0x00000000 && W(b, 21) == 0x00000060
    ensures W(b, 22) == 0x0b131c03 && W(b, 23) == 0x00000030
  {
    hide W, Abc;
    Words0(b);
    Words8(b);
    assert W(b, 16) == 0xc2c4c700 by { LaterWord(b, 16, 0x00000000, 0x00000000, 0x00000000, 0x61626380, 0xc2c4c700); }
    assert W(b, 17) == 0x00000000 by { LaterWord(b, 17, 0x00000000, 0x00000000, 0x00000000, 0x00000000, 0x00000000); }
    assert W(b, 18) == 0x00000030 by { LaterWord(b, 18, 0x00000018, 0x00000000, 0x00000000, 0x00000000, 0x00000030); }
    assert W(b, 19) == 0x85898e01 by { LaterWord(b, 19, 0xc2c4c700, 0x00000000, 0x00000000, 0x00000000, 0x85898e01); }
    assert W(b, 20) == 0x00000000 by { LaterWord(b, 20, 0x00000000, 0x00000000, 0x00000000, 0x00000000, 0x00000000); }
    assert W(b, 21) == 0x00000060 by { LaterWord(b, 21, 0x00000030, 0x00000000, 0x00000000, 0x00000000, 0x00000060); }
    assert W(b, 22) == 0x0b131c03 by { LaterWord(b, 22, 0x85898e01, 0x00000000, 0x00000000, 0x00000000, 0x0b131c03); }
    assert W(b, 23) == 0x00000030 by { LaterWord(b, 23, 0x00000000, 0x00000018, 0x00000000, 0x00000000, 0x00000030); }
  }

  lemma Words24(b: Block)
    requires b == Abc()
    ensures W(b, 24) == 0x85898ec1 && W(b, 25) == 0x16263806
    ensures W(b, 26) == 0x00000000 && W(b, 27) == 0x00000180
    ensures W(b, 28) == 0x2c4c700c && W(b, 29) == 0x000000f0
    ensures W(b, 30) == 0x93afb507 && W(b, 31) == 0x5898e048
  {
    hide W, Abc;
    Words8(b);
    Words16(b);
    assert W(b, 24) == 0x85898ec1 by { LaterWord(b, 24, 0x00000060, 0xc2c4c700, 0x00000000, 0x00000000, 0x85898ec1); }
    assert W(b, 25) == 0x16263806 by { LaterWord(b, 25, 0x0b131c03, 0x00000000, 0x00000000, 0x00000000, 0x16263806); }
    assert W(b, 26) == 0x00000000 by { LaterWord(b, 26, 0x00000030, 0x00000030, 0x00000000, 0x00000000, 0x00000000); }
    assert W(b, 27) == 0x00000180 by { LaterWord(b, 27, 0x85898ec1, 0x85898e01, 0x00000000, 0x00000000, 0x00000180); }
    assert W(b, 28) == 0x2c4c700c by { LaterWord(b, 28, 0x16263806, 0x00000000, 0x00000000, 0x00000000, 0x2c4c700c); }
    assert W(b, 29) == 0x000000f0 by { LaterWord(b, 29, 0x00000000, 0x00000060, 0x00000018, 0x00000000, 0x000000f0); }
    assert W(b, 30) == 0x93afb507 by { LaterWord(b, 30, 0x00000180, 0x0b131c03, 0xc2c4c700, 0x00000000, 0x93afb507); }
    assert W(b, 31) == 0x5898e048 by { LaterWord(b, 31, 0x2c4c700c, 0x00000030, 0x00000000, 0x00000018, 0x5898e048); }
  }

  lemma Words32(b: Block)
    requires b == Abc()
    ensures W(b, 32) == 0x8e9a9202 && W(b, 33) == 0x00000600
    ensures W(b, 34) == 0xb131c0f0 && W(b, 35) == 0x16263bc6
    ensures W(b, 36) == 0x4ebed41e && W(b, 37) == 0x626380a1
    ensures W(b, 38) == 0x16263806 && W(b, 39) == 0x000018c0
  {
    hide W, Abc;
    Words16(b);
    Words24(b);
    assert W(b, 32) == 0x8e9a9202 by { LaterWord(b, 32, 0x000000f0, 0x85898ec1, 0x00000030, 0xc2c4c700, 0x8e9a9202); }
    assert W(b, 33) == 0x00000600 by { LaterWord(b, 33, 0x93afb507, 0x16263806, 0x85898e01, 0x00000000, 0x00000600); }
    assert W(b, 34) == 0xb131c0f0 by { LaterWord(b, 34, 0x5898e048, 0x00000000, 0x00000000, 0x00000030, 0xb131c0f0); }
    assert W(b, 35) == 0x16263bc6 by { LaterWord(b, 35, 0x8e9a9202, 0x00000180, 0x00000060, 0x85898e01, 0x16263bc6); }
    assert W(b, 36) == 0x4ebed41e by { LaterWord(b, 36, 0x00000600, 0x2c4c700c, 0x0b131c03, 0x00000000, 0x4ebed41e); }
    assert W(b, 37) == 0x626380a1 by { LaterWord(b, 37, 0xb131c0f0, 0x000000f0, 0x00000030, 0x00000060, 0x626380a1); }
    assert W(b, 38) == 0x16263806 by { LaterWord(b, 38, 0x16263bc6, 0x93afb507, 0x85898ec1, 0x0b131c03, 0x16263806); }
    assert W(b, 39) == 0x000018c0 by { LaterWord(b, 39, 0x4ebed41e, 0x5898e048, 0x16263806, 0x00000030, 0x000018c0); }
  }

  lemma Words40(b: Block)
    requires b == Abc()
    ensures W(b, 40) == 0xd2e138c4 && W(b, 41) == 0x00000f00
    ensures W(b, 42) == 0x3afb5079 && W(b, 43) == 0x898e04e5
    ensures W(b, 44) == 0xe2ba3c2b && W(b, 45) == 0x000060c0
    ensures W(b, 46) == 0x053a37cd && W(b, 47) == 0x74458547
  {
    hide W, Abc;
    Words24(b);
    Words32(b);
    assert W(b, 40) == 0xd2e138c4 by { LaterWord(b, 40, 0x626380a1, 0x8e9a9202, 0x00000000, 0x85898ec1, 0xd2e138c4); }
    assert W(b, 41) == 0x00000f00 by { LaterWord(b, 41, 0x16263806, 0x00000600, 0x00000180, 0x16263806, 0x00000f00); }
    assert W(b, 42) == 0x3afb5079 by { LaterWord(b, 42, 0x000018c0, 0xb131c0f0, 0x2c4c700c, 0x00000000, 0x3afb5079); }
    assert W(b, 43) == 0x898e04e5 by { LaterWord(b, 43, 0xd2e138c4, 0x16263bc6, 0x000000f0, 0x00000180, 0x898e04e5); }
    assert W(b, 44) == 0xe2ba3c2b by { LaterWord(b, 44, 0x00000f00, 0x4ebed41e, 0x93afb507, 0x2c4c700c, 0xe2ba3c2b); }
    assert W(b, 45) == 0x000060c0 by { LaterWord(b, 45, 0x3afb5079, 0x626380a1, 0x5898e048, 0x000000f0, 0x000060c0); }
    assert W(b, 46) == 0x053a37cd by { LaterWord(b, 46, 0x898e04e5, 0x16263806, 0x8e9a9202, 0x93afb507, 0x053a37cd); }
    assert W(b, 47) == 0x74458547 by { LaterWord(b, 47, 0xe2ba3c2b, 0x000018c0, 0x00000600, 0x5898e048, 0x74458547); }
  }

  lemma Words48(b: Block)
    requires b == Abc()
    ensures W(b, 48) == 0xda9415ed && W(b, 49) == 0x26380a16
    ensures W(b, 50) == 0x626383a1 && W(b, 51) == 0x4ebf54de
    ensures W(b, 52) == 0x3835b44b && W(b, 53) == 0x0000f600
    ensures W(b, 54) == 0x1e84c7a3 && W(b, 55) == 0x98e04d98
  {
    hide W, Abc;
    Words32(b);
    Words40(b);
    assert W(b, 48) == 0xda9415ed by { LaterWord(b, 48, 0x000060c0, 0xd2e138c4, 0xb131c0f0, 0x8e9a9202, 0xda9415ed); }
    assert W(b, 49) == 0x26380a16 by { LaterWord(b, 49, 0x053a37cd, 0x00000f00, 0x16263bc6, 0x00000600, 0x26380a16); }
    assert W(b, 50) == 0x626383a1 by { LaterWord(b, 50, 0x74458547, 0x3afb5079, 0x4ebed41e, 0xb131c0f0, 0x626383a1); }
    assert W(b, 51) == 0x4ebf54de by { LaterWord(b, 51, 0xda9415ed, 0x898e04e5, 0x626380a1, 0x16263bc6, 0x4ebf54de); }
    assert W(b, 52) == 0x3835b44b by { LaterWord(b, 52, 0x26380a16, 0xe2ba3c2b, 0x16263806, 0x4ebed41e, 0x3835b44b); }
    assert W(b, 53) == 0x0000f600 by { LaterWord(b, 53, 0x626383a1, 0x000060c0, 0x000018c0, 0x626380a1, 0x0000f600); }
    assert W(b, 54) == 0x1e84c7a3 by { LaterWord(b, 54, 0x4ebf54de, 0x053a37cd, 0xd2e138c4, 0x16263806, 0x1e84c7a3); }
    assert W(b, 55) == 0x98e04d98 by { LaterWord(b, 55, 0x3835b44b, 0x74458547, 0x00000f00, 0x000018c0, 0x98e04d98); }
  }

  lemma Words56(b: Block)
    requires b == Abc()
    ensures W(b, 56) == 0x651d16a0 && W(b, 57) == 0x62658ca1
    ensures W(b, 58) == 0x458544d6 && W(b, 59) == 0x44584cb7
    ensures W(b, 60) == 0x7ba06619 && W(b, 61) == 0x6380aea2
    ensures W(b, 62) == 0x0ae55269 && W(b, 63) == 0x627b49a1
  {
    hide W, Abc;
    Words40(b);
    Words48(b);
    assert W(b, 56) == 0x651d16a0 by { LaterWord(b, 56, 0x0000f600, 0xda9415ed, 0x3afb5079, 0xd2e138c4, 0x651d16a0); }
    assert W(b, 57) == 0x62658ca1 by { LaterWord(b, 57, 0x1e84c7a3, 0x26380a16, 0x898e04e5, 0x00000f00, 0x62658ca1); }
    assert W(b, 58) == 0x458544d6 by { LaterWord(b, 58, 0x98e04d98, 0x626383a1, 0xe2ba3c2b, 0x3afb5079, 0x458544d6); }
    assert W(b, 59) == 0x44584cb7 by { LaterWord(b, 59, 0x651d16a0, 0x4ebf54de, 0x000060c0, 0x898e04e5, 0x44584cb7); }
    assert W(b, 60) == 0x7ba06619 by { LaterWord(b, 60, 0x62658ca1, 0x3835b44b, 0x053a37cd, 0xe2ba3c2b, 0x7ba06619); }
    assert W(b, 61) == 0x6380aea2 by { LaterWord(b, 61, 0x458544d6, 0x0000f600, 0x74458547, 0x000060c0, 0x6380aea2); }
    assert W(b, 62) == 0x0ae55269 by { LaterWord(b, 62, 0x44584cb7, 0x1e84c7a3, 0xda9415ed, 0x053a37cd, 0x0ae55269); }
    assert W(b, 63) == 0x627b49a1 by { LaterWord(b, 63, 0x7ba06619, 0x98e04d98, 0x26380a16, 0x74458547, 0x627b49a1); }
  }

  lemma Words64(b: Block)
    requires b == Abc()
    ensures W(b, 64) == 0x7cd45c9d && W(b, 65) == 0x000f0000
    ensures W(b, 66) == 0xfb50753a && W(b, 67) == 0xec6765e8
    ensures W(b, 68) == 0xba3c2be2 && W(b, 69) == 0x0060c000
    ensures W(b, 70) == 0x3a37cd05 && W(b, 71) == 0x458546f4
  {
    hide W, Abc;
    Words48(b);
    Words56(b);
    assert W(b, 64) == 0x7cd45c9d by { LaterWord(b, 64, 0x6380aea2, 0x651d16a0, 0x626383a1, 0xda9415ed, 0x7cd45c9d); }
    assert W(b, 65) == 0x000f0000 by { LaterWord(b, 65, 0x0ae55269, 0x62658ca1, 0x4ebf54de, 0x26380a16, 0x000f0000); }
    assert W(b, 66) == 0xfb50753a by { LaterWord(b, 66, 0x627b49a1, 0x458544d6, 0x3835b44b, 0x626383a1, 0xfb50753a); }
    assert W(b, 67) == 0xec6765e8 by { LaterWord(b, 67, 0x7cd45c9d, 0x44584cb7, 0x0000f600, 0x4ebf54de, 0xec6765e8); }
    assert W(b, 68) == 0xba3c2be2 by { LaterWord(b, 68, 0x000f0000, 0x7ba06619, 0x1e84c7a3, 0x3835b44b, 0xba3c2be2); }
    assert W(b, 69) == 0x0060c000 by { LaterWord(b, 69, 0xfb50753a, 0x6380aea2, 0x98e04d98, 0x0000f600, 0x0060c000); }
    assert W(b, 70) == 0x3a37cd05 by { LaterWord(b, 70, 0xec6765e8, 0x0ae55269, 0x651d16a0, 0x1e84c7a3, 0x3a37cd05); }
    assert W(b, 71) == 0x458546f4 by { LaterWord(b, 71, 0xba3c2be2, 0x627b49a1, 0x62658ca1, 0x98e04d98, 0x458546f4); }
  }

  lemma Words72(b: Block)
    requires b == Abc()
    ensures W(b, 72) == 0xb8599dd6 && W(b, 73) == 0x380a1a26
    ensures W(b, 74) == 0x01e02203 && W(b, 75) == 0xe7cc3456
    ensures W(b, 76) == 0xe6e60b69 && W(b, 77) == 0x00f60a00
    ensures W(b, 78) == 0x5795ef4f && W(b, 79) == 0x822e0879
  {
    hide W, Abc;
    Words56(b);
    Words64(b);
    assert W(b, 72) == 0xb8599dd6 by { LaterWord(b, 72, 0x0060c000, 0x7cd45c9d, 0x458544d6, 0x651d16a0, 0xb8599dd6); }
    assert W(b, 73) == 0x380a1a26 by { LaterWord(b, 73, 0x3a37cd05, 0x000f0000, 0x44584cb7, 0x62658ca1, 0x380a1a26); }
    assert W(b, 74) == 0x01e02203 by { LaterWord(b, 74, 0x458546f4, 0xfb50753a, 0x7ba06619, 0x458544d6, 0x01e02203); }
    assert W(b, 75) == 0xe7cc3456 by { LaterWord(b, 75, 0xb8599dd6, 0xec6765e8, 0x6380aea2, 0x44584cb7, 0xe7cc3456); }
    assert W(b, 76) == 0xe6e60b69 by { LaterWord(b, 76, 0x380a1a26, 0xba3c2be2, 0x0ae55269, 0x7ba06619, 0xe6e60b69); }
    assert W(b, 77) == 0x00f60a00 by { LaterWord(b, 77, 0x01e02203, 0x0060c000, 0x627b49a1, 0x6380aea2, 0x00f60a00); }
    assert W(b, 78) == 0x5795ef4f by { LaterWord(b, 78, 0xe7cc3456, 0x3a37cd05, 0x7cd45c9d, 0x0ae55269, 0x5795ef4f); }
    assert W(b, 79) == 0x822e0879 by { LaterWord(b, 79, 0xe6e60b69, 0x458546f4, 0x000f0000, 0x627b49a1, 0x822e0879); }
  }

  // ---------------------------------------------------------------- the rounds

  /** Round `t` takes `r` to `next`. */
  lemma NextRound(b: Block, t: nat, r: Regs, w: bv32, next: Regs)
    requires t < 80 && Rounds(H0, b, t) == r && W(b, t) == w && Round(r, t, w) == next
    ensures Rounds(H0, b, t + 1) == next
  {
    hide Round, W;
  }

  lemma Rounds8(b: Block)
    requires b == Abc()
    ensures Rounds(H0, b, 8) ==
              Regs(0x9e8c07d4, 0x993e30c1, 0x0ff1f290, 0xb3f52677, 0xf3763846)
  {
    assert Rounds(H0, b, 0) == H0;
    hide W, Abc, Rounds;
    Words0(b);
    var r0 := Regs(0x67452301, 0xefcdab89, 0x98badcfe, 0x10325476, 0xc3d2e1f0);
    var r1 := Regs(0x0116fc33, 0x67452301, 0x7bf36ae2, 0x98badcfe, 0x10325476);
    assert Rounds(H0, b, 1) == r1 by { NextRound(b, 0, r0, 0x61626380, r1); }
    var r2 := Regs(0x8990536d, 0x0116fc33, 0x59d148c0, 0x7bf36ae2, 0x98badcfe);
    assert Rounds(H0, b, 2) == r2 by { NextRound(b, 1, r1, 0x00000000, r2); }
    var r3 := Regs(0xa1390f08, 0x8990536d, 0xc045bf0c, 0x59d148c0, 0x7bf36ae2);
    assert Rounds(H0, b, 3) == r3 by { NextRound(b, 2, r2, 0x00000000, r3); }
    var r4 := Regs(0xcdd8e11b, 0xa1390f08, 0x626414db, 0xc045bf0c, 0x59d148c0);
    assert Rounds(H0, b, 4) == r4 by { NextRound(b, 3, r3, 0x00000000, r4); }
    var r5 := Regs(0xcfd499de, 0xcdd8e11b, 0x284e43c2, 0x626414db, 0xc045bf0c);
    assert Rounds(H0, b, 5) == r5 by { NextRound(b, 4, r4, 0x00000000, r5); }
    var r6 := Regs(0x3fc7ca40, 0xcfd499de, 0xf3763846, 0x284e43c2, 0x626414db);
    assert Rounds(H0, b, 6) == r6 by { NextRound(b, 5, r5, 0x00000000, r6); }
    var r7 := Regs(0x993e30c1, 0x3fc7ca40, 0xb3f52677, 0xf3763846, 0x284e43c2);
    assert Rounds(H0, b, 7) == r7 by { NextRound(b, 6, r6, 0x00000000, r7); }
    var r8 := Regs(0x9e8c07d4, 0x993e30c1, 0x0ff1f290, 0xb3f52677, 0xf3763846);
    assert Rounds(H0, b, 8) == r8 by { NextRound(b, 7, r7, 0x00000000, r8); }
  }

  lemma Rounds16(b: Block)
    requires b == Abc()
    ensures Rounds(H0, b, 16) ==
              Regs(0x20bdd62f, 0x196bee77, 0x644a3da5, 0x1181ed99, 0x18c623f9)
  {
    hide W, Abc, Rounds;
    Rounds8(b);
    Words8(b);
    var r0 := Regs(0x9e8c07d4, 0x993e30c1, 0x0ff1f290, 0xb3f52677, 0xf3763846);
    var r1 := Regs(0x4b6ae328, 0x9e8c07d4, 0x664f8c30, 0x0ff1f290, 0xb3f52677);
    assert Rounds(H0, b, 9) == r1 by { NextRound(b, 8, r0, 0x00000000, r1); }
    var r2 := Regs(0x8351f929, 0x4b6ae328, 0x27a301f5, 0x664f8c30, 0x0ff1f290);
    assert Rounds(H0, b, 10) == r2 by { NextRound(b, 9, r1, 0x00000000, r2); }
    var r3 := Regs(0xfbda9e89, 0x8351f929, 0x12dab8ca, 0x27a301f5, 0x664f8c30);
    assert Rounds(H0, b, 11) == r3 by { NextRound(b, 10, r2, 0x00000000, r3); }
    var r4 := Regs(0x63188fe4, 0xfbda9e89, 0x60d47e4a, 0x12dab8ca, 0x27a301f5);
    assert Rounds(H0, b, 12) == r4 by { NextRound(b, 11, r3, 0x00000000, r4); }
    var r5 := Regs(0x4607b664, 0x63188fe4, 0x7ef6a7a2, 0x60d47e4a, 0x12dab8ca);
    assert Rounds(H0, b, 13) == r5 by { NextRound(b, 12, r4, 0x00000000, r5); }
    var r6 := Regs(0x9128f695, 0x4607b664, 0x18c623f9, 0x7ef6a7a2, 0x60d47e4a);
    assert Rounds(H0, b, 14) == r6 by { NextRound(b, 13, r5, 0x00000000, r6); }
    var r7 := Regs(0x196bee77, 0x9128f695, 0x1181ed99, 0x18c623f9, 0x7ef6a7a2);
    assert Rounds(H0, b, 15) == r7 by { NextRound(b, 14, r6, 0x00000000, r7); }
    var r8 := Regs(0x20bdd62f, 0x196bee77, 0x644a3da5, 0x1181ed99, 0x18c623f9);
    assert Rounds(H0, b, 16) == r8 by { NextRound(b, 15, r7, 0x00000018, r8); }
  }

  lemma Rounds24(b: Block)
    requires b == Abc()
    ensures Rounds(H0, b, 24) ==
              Regs(0xd541f12d, 0x21283486, 0x0ce88eff, 0x868dec32, 0x7f67875f)
  {
    hide W, Abc, Rounds;
    Rounds16(b);
    Words16(b);
    var r0 := Regs(0x20bdd62f, 0x196bee77, 0x644a3da5, 0x1181ed99, 0x18c623f9);
    var r1 := Regs(0x4e925823, 0x20bdd62f, 0xc65afb9d, 0x644a3da5, 0x1181ed99);
    assert Rounds(H0, b, 17) == r1 by { NextRound(b, 16, r0, 0xc2c4c700, r1); }
    var r2 := Regs(0x82aa6728, 0x4e925823, 0xc82f758b, 0xc65afb9d, 0x644a3da5);
    assert Rounds(H0, b, 18) == r2 by { NextRound(b, 17, r1, 0x00000000, r2); }
    var r3 := Regs(0xdc64901d, 0x82aa6728, 0xd3a49608, 0xc82f758b, 0xc65afb9d);
    assert Rounds(H0, b, 19) == r3 by { NextRound(b, 18, r2, 0x00000030, r3); }
    var r4 := Regs(0xfd9e1d7d, 0xdc64901d, 0x20aa99ca, 0xd3a49608, 0xc82f758b);
    assert Rounds(H0, b, 20) == r4 by { NextRound(b, 19, r3, 0x85898e01, r4); }
    var r5 := Regs(0x1a37b0ca, 0xfd9e1d7d, 0x77192407, 0x20aa99ca, 0xd3a49608);
    assert Rounds(H0, b, 21) == r5 by { NextRound(b, 20, r4, 0x00000000, r5); }
    var r6 := Regs(0x33a23bfc, 0x1a37b0ca, 0x7f67875f, 0x77192407, 0x20aa99ca);
    assert Rounds(H0, b, 22) == r6 by { NextRound(b, 21, r5, 0x00000060, r6); }
    var r7 := Regs(0x21283486, 0x33a23bfc, 0x868dec32, 0x7f67875f, 0x77192407);
    assert Rounds(H0, b, 23) == r7 by { NextRound(b, 22, r6, 0x0b131c03, r7); }
    var r8 := Regs(0xd541f12d, 0x21283486, 0x0ce88eff, 0x868dec32, 0x7f67875f);
    assert Rounds(H0, b, 24) == r8 by { NextRound(b, 23, r7, 0x00000030, r8); }
  }

  lemma Rounds32(b: Block)
    requires b == Abc()
    ensures Rounds(H0, b, 32) ==
              Regs(0x3b845d33, 0x1267b407, 0x717eebd7, 0xa0dc2d4b, 0xd2aa1365)
  {
    hide W, Abc, Rounds;
    Rounds24(b);
    Words24(b);
    var r0 := Regs(0xd541f12d, 0x21283486, 0x0ce88eff, 0x868dec32, 0x7f67875f);
    var r1 := Regs(0xc7567dc6, 0xd541f12d, 0x884a0d21, 0x0ce88eff, 0x868dec32);
    assert Rounds(H0, b, 25) == r1 by { NextRound(b, 24, r0, 0x85898ec1, r1); }
    var r2 := Regs(0x48413ba4, 0xc7567dc6, 0x75507c4b, 0x884a0d21, 0x0ce88eff);
    assert Rounds(H0, b, 26) == r2 by { NextRound(b, 25, r1, 0x16263806, r2); }
    var r3 := Regs(0xbe35fbd5, 0x48413ba4, 0xb1d59f71, 0x75507c4b, 0x884a0d21);
    assert Rounds(H0, b, 27) == r3 by { NextRound(b, 26, r2, 0x00000000, r3); }
    var r4 := Regs(0x4aa84d97, 0xbe35fbd5, 0x12104ee9, 0xb1d59f71, 0x75507c4b);
    assert Rounds(H0, b, 28) == r4 by { NextRound(b, 27, r3, 0x00000180, r4); }
    var r5 := Regs(0x8370b52e, 0x4aa84d97, 0x6f8d7ef5, 0x12104ee9, 0xb1d59f71);
    assert Rounds(H0, b, 29) == r5 by { NextRound(b, 28, r4, 0x2c4c700c, r5); }
    var r6 := Regs(0xc5fbaf5d, 0x8370b52e, 0xd2aa1365, 0x6f8d7ef5, 0x12104ee9);
    assert Rounds(H0, b, 30) == r6 by { NextRound(b, 29, r5, 0x000000f0, r6); }
    var r7 := Regs(0x1267b407, 0xc5fbaf5d, 0xa0dc2d4b, 0xd2aa1365, 0x6f8d7ef5);
    assert Rounds(H0, b, 31) == r7 by { NextRound(b, 30, r6, 0x93afb507, r7); }
    var r8 := Regs(0x3b845d33, 0x1267b407, 0x717eebd7, 0xa0dc2d4b, 0xd2aa1365);
    assert Rounds(H0, b, 32) == r8 by { NextRound(b, 31, r7, 0x5898e048, r8); }
  }

  lemma Rounds40(b: Block)
    requires b == Abc()
    ensures Rounds(H0, b, 40) ==
              Regs(0x32de1cba, 0x4c986405, 0xf718e5cf, 0x03d447f6, 0xf72eec32)
  {
    hide W, Abc, Rounds;
    Rounds32(b);
    Words32(b);
    var r0 := Regs(0x3b845d33, 0x1267b407, 0x717eebd7, 0xa0dc2d4b, 0xd2aa1365);
    var r1 := Regs(0x046faa0a, 0x3b845d33, 0xc499ed01, 0x717eebd7, 0xa0dc2d4b);
    assert Rounds(H0, b, 33) == r1 by { NextRound(b, 32, r0, 0x8e9a9202, r1); }
    var r2 := Regs(0x2c0ebc11, 0x046faa0a, 0xcee1174c, 0xc499ed01, 0x717eebd7);
    assert Rounds(H0, b, 34) == r2 by { NextRound(b, 33, r1, 0x00000600, r2); }
    var r3 := Regs(0x21796ad4, 0x2c0ebc11, 0x811bea82, 0xcee1174c, 0xc499ed01);
    assert Rounds(H0, b, 35) == r3 by { NextRound(b, 34, r2, 0xb131c0f0, r3); }
    var r4 := Regs(0xdcbbb0cb, 0x21796ad4, 0x4b03af04, 0x811bea82, 0xcee1174c);
    assert Rounds(H0, b, 36) == r4 by { NextRound(b, 35, r3, 0x16263bc6, r4); }
    var r5 := Regs(0x0f511fd8, 0xdcbbb0cb, 0x085e5ab5, 0x4b03af04, 0x811bea82);
    assert Rounds(H0, b, 37) == r5 by { NextRound(b, 36, r4, 0x4ebed41e, r5); }
    var r6 := Regs(0xdc63973f, 0x0f511fd8, 0xf72eec32, 0x085e5ab5, 0x4b03af04);
    assert Rounds(H0, b, 38) == r6 by { NextRound(b, 37, r5, 0x626380a1, r6); }
    var r7 := Regs(0x4c986405, 0xdc63973f, 0x03d447f6, 0xf72eec32, 0x085e5ab5);
    assert Rounds(H0, b, 39) == r7 by { NextRound(b, 38, r6, 0x16263806, r7); }
    var r8 := Regs(0x32de1cba, 0x4c986405, 0xf718e5cf, 0x03d447f6, 0xf72eec32);
    assert Rounds(H0, b, 40) == r8 by { NextRound(b, 39, r7, 0x000018c0, r8); }
  }

  lemma Rounds48(b: Block)
    requires b == Abc()
    ensures Rounds(H0, b, 48) ==
              Regs(0xbead02ca, 0xa01b846c, 0x8714787c, 0x503ca382, 0xfb86c6ab)
  {
    hide W, Abc, Rounds;
    Rounds40(b);
    Words40(b);
    var r0 := Regs(0x32de1cba, 0x4c986405, 0xf718e5cf, 0x03d447f6, 0xf72eec32);
    var r1 := Regs(0xfc87dedf, 0x32de1cba, 0x53261901, 0xf718e5cf, 0x03d447f6);
    assert Rounds(H0, b, 41) == r1 by { NextRound(b, 40, r0, 0xd2e138c4, r1); }
    var r2 := Regs(0x970a0d5c, 0xfc87dedf, 0x8cb7872e, 0x53261901, 0xf718e5cf);
    assert Rounds(H0, b, 42) == r2 by { NextRound(b, 41, r1, 0x00000f00, r2); }
    var r3 := Regs(0x7f193dc5, 0x970a0d5c, 0xff21f7b7, 0x8cb7872e, 0x53261901);
    assert Rounds(H0, b, 43) == r3 by { NextRound(b, 42, r2, 0x3afb5079, r3); }
    var r4 := Regs(0xee1b1aaf, 0x7f193dc5, 0x25c28357, 0xff21f7b7, 0x8cb7872e);
    assert Rounds(H0, b, 44) == r4 by { NextRound(b, 43, r3, 0x898e04e5, r4); }
    var r5 := Regs(0x40f28e09, 0xee1b1aaf, 0x5fc64f71, 0x25c28357, 0xff21f7b7);
    assert Rounds(H0, b, 45) == r5 by { NextRound(b, 44, r4, 0xe2ba3c2b, r5); }
    var r6 := Regs(0x1c51e1f2, 0x40f28e09, 0xfb86c6ab, 0x5fc64f71, 0x25c28357);
    assert Rounds(H0, b, 46) == r6 by { NextRound(b, 45, r5, 0x000060c0, r6); }
    var r7 := Regs(0xa01b846c, 0x1c51e1f2, 0x503ca382, 0xfb86c6ab, 0x5fc64f71);
    assert Rounds(H0, b, 47) == r7 by { NextRound(b, 46, r6, 0x053a37cd, r7); }
    var r8 := Regs(0xbead02ca, 0xa01b846c, 0x8714787c, 0x503ca382, 0xfb86c6ab);
    assert Rounds(H0, b, 48) == r8 by { NextRound(b, 47, r7, 0x74458547, r8); }
  }

  lemma Rounds56(b: Block)
    requires b == Abc()
    ensures Rounds(H0, b, 56) ==
              Regs(0x5e6456af, 0x7b71f76d, 0x09fa7c76, 0x792410db, 0x8e11eb59)
  {
    hide W, Abc, Rounds;
    Rounds48(b);
    Words48(b);
    var r0 := Regs(0xbead02ca, 0xa01b846c, 0x8714787c, 0x503ca382, 0xfb86c6ab);
    var r1 := Regs(0xbaf39337, 0xbead02ca, 0x2806e11b, 0x8714787c, 0x503ca382);
    assert Rounds(H0, b, 49) == r1 by { NextRound(b, 48, r0, 0xda9415ed, r1); }
    var r2 := Regs(0x120731c5, 0xbaf39337, 0xafab40b2, 0x2806e11b, 0x8714787c);
    assert Rounds(H0, b, 50) == r2 by { NextRound(b, 49, r1, 0x26380a16, r2); }
    var r3 := Regs(0x641db2ce, 0x120731c5, 0xeebce4cd, 0xafab40b2, 0x2806e11b);
    assert Rounds(H0, b, 51) == r3 by { NextRound(b, 50, r2, 0x626383a1, r3); }
    var r4 := Regs(0x3847ad66, 0x641db2ce, 0x4481cc71, 0xeebce4cd, 0xafab40b2);
    assert Rounds(H0, b, 52) == r4 by { NextRound(b, 51, r3, 0x4ebf54de, r4); }
    var r5 := Regs(0xe490436d, 0x3847ad66, 0x99076cb3, 0x4481cc71, 0xeebce4cd);
    assert Rounds(H0, b, 53) == r5 by { NextRound(b, 52, r4, 0x3835b44b, r5); }
    var r6 := Regs(0x27e9f1d8, 0xe490436d, 0x8e11eb59, 0x99076cb3, 0x4481cc71);
    assert Rounds(H0, b, 54) == r6 by { NextRound(b, 53, r5, 0x0000f600, r6); }
    var r7 := Regs(0x7b71f76d, 0x27e9f1d8, 0x792410db, 0x8e11eb59, 0x99076cb3);
    assert Rounds(H0, b, 55) == r7 by { NextRound(b, 54, r6, 0x1e84c7a3, r7); }
    var r8 := Regs(0x5e6456af, 0x7b71f76d, 0x09fa7c76, 0x792410db, 0x8e11eb59);
    assert Rounds(H0, b, 56) == r8 by { NextRound(b, 55, r7, 0x98e04d98, r8); }
  }

  lemma Rounds64(b: Block)
    requires b == Abc()
    ensures Rounds(H0, b, 64) ==
              Regs(0x6b61c9e1, 0xb66c020b, 0x9523272c, 0xf5d5b051, 0x8fd4b796)
  {
    hide W, Abc, Rounds;
    Rounds56(b);
    Words56(b);
    var r0 := Regs(0x5e6456af, 0x7b71f76d, 0x09fa7c76, 0x792410db, 0x8e11eb59);
    var r1 := Regs(0xc846093f, 0x5e6456af, 0x5edc7ddb, 0x09fa7c76, 0x792410db);
    assert Rounds(H0, b, 57) == r1 by { NextRound(b, 56, r0, 0x651d16a0, r1); }
    var r2 := Regs(0xd262ff50, 0xc846093f, 0xd79915ab, 0x5edc7ddb, 0x09fa7c76);
    assert Rounds(H0, b, 58) == r2 by { NextRound(b, 57, r1, 0x62658ca1, r2); }
    var r3 := Regs(0x09d785fd, 0xd262ff50, 0xf211824f, 0xd79915ab, 0x5edc7ddb);
    assert Rounds(H0, b, 59) == r3 by { NextRound(b, 58, r2, 0x458544d6, r3); }
    var r4 := Regs(0x3f52de5a, 0x09d785fd, 0x3498bfd4, 0xf211824f, 0xd79915ab);
    assert Rounds(H0, b, 60) == r4 by { NextRound(b, 59, r3, 0x44584cb7, r4); }
    var r5 := Regs(0xd756c147, 0x3f52de5a, 0x4275e17f, 0x3498bfd4, 0xf211824f);
    assert Rounds(H0, b, 61) == r5 by { NextRound(b, 60, r4, 0x7ba06619, r5); }
    var r6 := Regs(0x548c9cb2, 0xd756c147, 0x8fd4b796, 0x4275e17f, 0x3498bfd4);
    assert Rounds(H0, b, 62) == r6 by { NextRound(b, 61, r5, 0x6380aea2, r6); }
    var r7 := Regs(0xb66c020b, 0x548c9cb2, 0xf5d5b051, 0x8fd4b796, 0x4275e17f);
    assert Rounds(H0, b, 63) == r7 by { NextRound(b, 62, r6, 0x0ae55269, r7); }
    var r8 := Regs(0x6b61c9e1, 0xb66c020b, 0x9523272c, 0xf5d5b051, 0x8fd4b796);
    assert Rounds(H0, b, 64) == r8 by { NextRound(b, 63, r7, 0x627b49a1, r8); }
  }

  lemma Rounds72(b: Block)
    requires b == Abc()
    ensures Rounds(H0, b, 72) ==
              Regs(0x39859de7, 0xc199f8c7, 0x8fc96230, 0x125c24f0, 0xde37534a)
  {
    hide W, Abc, Rounds;
    Rounds64(b);
    Words64(b);
    var r0 := Regs(0x6b61c9e1, 0xb66c020b, 0x9523272c, 0xf5d5b051, 0x8fd4b796);
    var r1 := Regs(0x19dfa7ac, 0x6b61c9e1, 0xed9b0082, 0x9523272c, 0xf5d5b051);
    assert Rounds(H0, b, 65) == r1 by { NextRound(b, 64, r0, 0x7cd45c9d, r1); }
    var r2 := Regs(0x101655f9, 0x19dfa7ac, 0x5ad87278, 0xed9b0082, 0x9523272c);
    assert Rounds(H0, b, 66) == r2 by { NextRound(b, 65, r1, 0x000f0000, r2); }
    var r3 := Regs(0x0c3df2b4, 0x101655f9, 0x0677e9eb, 0x5ad87278, 0xed9b0082);
    assert Rounds(H0, b, 67) == r3 by { NextRound(b, 66, r2, 0xfb50753a, r3); }
    var r4 := Regs(0x78dd4d2b, 0x0c3df2b4, 0x4405957e, 0x0677e9eb, 0x5ad87278);
    assert Rounds(H0, b, 68) == r4 by { NextRound(b, 67, r3, 0xec6765e8, r4); }
    var r5 := Regs(0x497093c0, 0x78dd4d2b, 0x030f7cad, 0x4405957e, 0x0677e9eb);
    assert Rounds(H0, b, 69) == r5 by { NextRound(b, 68, r4, 0xba3c2be2, r5); }
    var r6 := Regs(0x3f2588c2, 0x497093c0, 0xde37534a, 0x030f7cad, 0x4405957e);
    assert Rounds(H0, b, 70) == r6 by { NextRound(b, 69, r5, 0x0060c000, r6); }
    var r7 := Regs(0xc199f8c7, 0x3f2588c2, 0x125c24f0, 0xde37534a, 0x030f7cad);
    assert Rounds(H0, b, 71) == r7 by { NextRound(b, 70, r6, 0x3a37cd05, r7); }
    var r8 := Regs(0x39859de7, 0xc199f8c7, 0x8fc96230, 0x125c24f0, 0xde37534a);
    assert Rounds(H0, b, 72) == r8 by { NextRound(b, 71, r7, 0x458546f4, r8); }
  }

  lemma Rounds80(b: Block)
    requires b == Abc()
    ensures Rounds(H0, b, 80) ==
              Regs(0x42541b35, 0x5738d5e1, 0x21834873, 0x681e6df6, 0xd8fdf6ad)
  {
    hide W, Abc, Rounds;
    Rounds72(b);
    Words72(b);
    var r0 := Regs(0x39859de7, 0xc199f8c7, 0x8fc96230, 0x125c24f0, 0xde37534a);
    var r1 := Regs(0xedb42de4, 0x39859de7, 0xf0667e31, 0x8fc96230, 0x125c24f0);
    assert Rounds(H0, b, 73) == r1 by { NextRound(b, 72, r0, 0xb8599dd6, r1); }
    var r2 := Regs(0x11793f6f, 0xedb42de4, 0xce616779, 0xf0667e31, 0x8fc96230);
    assert Rounds(H0, b, 74) == r2 by { NextRound(b, 73, r1, 0x380a1a26, r2); }
    var r3 := Regs(0x5ee76897, 0x11793f6f, 0x3b6d0b79, 0xce616779, 0xf0667e31);
    assert Rounds(H0, b, 75) == r3 by { NextRound(b, 74, r2, 0x01e02203, r3); }
    var r4 := Regs(0x63f7dab7, 0x5ee76897, 0xc45e4fdb, 0x3b6d0b79, 0xce616779);
    assert Rounds(H0, b, 76) == r4 by { NextRound(b, 75, r3, 0xe7cc3456, r4); }
    var r5 := Regs(0xa079b7d9, 0x63f7dab7, 0xd7b9da25, 0xc45e4fdb, 0x3b6d0b79);
    assert Rounds(H0, b, 77) == r5 by { NextRound(b, 76, r4, 0xe6e60b69, r5); }
    var r6 := Regs(0x860d21cc, 0xa079b7d9, 0xd8fdf6ad, 0xd7b9da25, 0xc45e4fdb);
    assert Rounds(H0, b, 78) == r6 by { NextRound(b, 77, r5, 0x00f60a00, r6); }
    var r7 := Regs(0x5738d5e1, 0x860d21cc, 0x681e6df6, 0xd8fdf6ad, 0xd7b9da25);
    assert Rounds(H0, b, 79) == r7 by { NextRound(b, 78, r6, 0x5795ef4f, r7); }
    var r8 := Regs(0x42541b35, 0x5738d5e1, 0x21834873, 0x681e6df6, 0xd8fdf6ad);
    assert Rounds(H0, b, 80) == r8 by { NextRound(b, 79, r7, 0x822e0879, r8); }
  }

  // ---------------------------------------------------------------- the digest

  lemma AbcCompressed()
    ensures Compress(H0, Abc()) == Regs(0xa9993e36, 0x4706816a, 0xba3e2571, 0x7850c26c, 0x9cd0d89d)
  {
    hide Rounds, Abc;
    Rounds80(Abc());
  }

  /** Blocks are chained on: the value after one block starts the next. */
  lemma ChainGrows(message: seq<Byte>, b: Block)
    requires |message| % 64 == 0
    ensures |message + b| % 64 == 0 && Chain(message + b) == Compress(Chain(message), b)
  {
    hide Compress;
    assert (message + b)[..|message|] == message && (message + b)[|message|..] == b;
  }

  lemma OneBlock(b: Block)
    ensures Chain(b) == Compress(H0, b)
  {
    ChainGrows([], b);
    assert [] + b == b;
    hide Compress;
    assert Chain([]) == H0;
  }

  lemma FlattenMore(words: seq<bv32>, i: nat)
    requires i < |words|
    ensures Flatten(words[..i + 1]) == Flatten(words[..i]) + WordBytes(words[i])
  {
    hide WordBytes;
    assert words[..i + 1][..i] == words[..i];
  }

  lemma DigestParts(r: Regs)
    ensures Digest(r) == WordBytes(r.a) + WordBytes(r.b) + WordBytes(r.c) + WordBytes(r.d) + WordBytes(r.e)
  {
    var words := [r.a, r.b, r.c, r.d, r.e];
    assert words[..0] == [] && words[..5] == words;
    assert Flatten([]) == [];
    hide WordBytes, Flatten;
    assert Flatten(words[..1]) == WordBytes(r.a) by { FlattenMore(words, 0); }
    assert Flatten(words[..2]) == WordBytes(r.a) + WordBytes(r.b) by { FlattenMore(words, 1); }
    assert Flatten(words[..3]) == WordBytes(r.a) + WordBytes(r.b) + WordBytes(r.c) by { FlattenMore(words, 2); }
    FlattenMore(words, 3);
    FlattenMore(words, 4);
  }

  /** The hash of "abc" is the one FIPS 180 gives. */
  lemma HashOfAbc()
    ensures HashOf([0x61, 0x62, 0x63]) ==
              [0xa9, 0x99, 0x3e, 0x36, 0x47, 0x06, 0x81, 0x6a, 0xba, 0x3e,
               0x25, 0x71, 0x78, 0x50, 0xc2, 0x6c, 0x9c, 0xd0, 0xd8, 0x9d]
  {
    hide Chain, Pad, Digest, Compress, Abc, WordBytes;
    AbcIsPadded();
    OneBlock(Abc());
    AbcCompressed();
    DigestParts(Regs(0xa9993e36, 0x4706816a, 0xba3e2571, 0x7850c26c, 0x9cd0d89d));
    DigestWord0();
    DigestWord1();
    DigestWord2();
    DigestWord3();
    DigestWord4();
  }

  lemma DigestWord0()
    ensures WordBytes(0xa9993e36) == [0xa9, 0x99, 0x3e, 0x36]
  {
  }

  lemma DigestWord1()
    ensures WordBytes(0x4706816a) == [0x47, 0x06, 0x81, 0x6a]
  {
  }

  lemma DigestWord2()
    ensures WordBytes(0xba3e2571) == [0xba, 0x3e, 0x25, 0x71]
  {
  }

  lemma DigestWord3()
    ensures WordBytes(0x7850c26c) == [0x78, 0x50, 0xc2, 0x6c]
  {
  }

  lemma DigestWord4()
    ensures WordBytes(0x9cd0d89d) == [0x9c, 0xd0, 0xd8, 0x9d]
  {
  }
}
