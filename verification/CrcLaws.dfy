/**
 What a CRC is good for, and what it is for one known message: facts about the checksum itself, from
 which the complements at either end, the polynomial and the order of the bits can be read.
 */
module CrcLaws {
  import opened Widths
  import opened Bits
  import opened Crc32

  // ---------- the register as a machine word ----------

  function Half(x: bv32): bv32 { x >> 1 }

  function Odd(x: bv32): bool { x & 1 == 1 }

  function Add(x: bv32, y: bv32): bv32 { x ^ y }

  /** Bit i of a machine word. */
  function Bit(x: bv32, i: nat): (b: int) { if i == 0 then if Odd(x) then 1 else 0 else Bit(Half(x), i - 1) }

  ghost predicate Same(c: Word, x: bv32) { forall i {:trigger Bit(x, i)} :: 0 <= i < 32 ==> c[i] == (Bit(x, i) == 1) }

  lemma AddHalf(x: bv32, y: bv32)
    ensures Half(Add(x, y)) == Add(Half(x), Half(y))
    ensures Odd(Add(x, y)) == (Odd(x) != Odd(y))
  {
  }

  lemma {:induction false} BitXor(x: bv32, y: bv32, i: nat)
    ensures Bit(Add(x, y), i) == 1 <==> (Bit(x, i) == 1) != (Bit(y, i) == 1)
    decreases i
  {
    AddHalf(x, y);
    hide Half, Odd, Add;
    if i > 0 {
      BitXor(Half(x), Half(y), i - 1);
    }
  }

  function Half8(x: bv32): bv32 { x >> 8 }

  lemma EightHalves(x: bv32)
    ensures Half(Half(Half(Half(Half(Half(Half(Half(x)))))))) == Half8(x)
    ensures Half8(Half8(Half8(Half8(x)))) == 0
  {
  }

  lemma BitEight(x: bv32, i: nat)
    ensures Bit(x, i + 8) == Bit(Half8(x), i)
  {
    EightHalves(x);
    hide Half, Half8, Odd;
    var x1 := Half(x);
    var x2 := Half(x1);
    var x3 := Half(x2);
    var x4 := Half(x3);
    var x5 := Half(x4);
    var x6 := Half(x5);
    var x7 := Half(x6);
    assert Bit(x, i + 8) == Bit(x1, i + 7);
    assert Bit(x1, i + 7) == Bit(x2, i + 6);
    assert Bit(x2, i + 6) == Bit(x3, i + 5);
    assert Bit(x3, i + 5) == Bit(x4, i + 4);
    assert Bit(x4, i + 4) == Bit(x5, i + 3);
    assert Bit(x5, i + 3) == Bit(x6, i + 2);
    assert Bit(x6, i + 2) == Bit(x7, i + 1);
  }

  /** There is no bit 32. */
  lemma NoMoreBits(x: bv32)
    ensures Bit(x, 32) == 0
  {
    EightHalves(x);
    BitEight(x, 24);
    BitEight(Half8(x), 16);
    BitEight(Half8(Half8(x)), 8);
    BitEight(Half8(Half8(Half8(x))), 0);
  }

  function LowByte(x: bv32): (b: seq<bool>)
    ensures |b| == 8
  {
    [Bit(x, 0) == 1, Bit(x, 1) == 1, Bit(x, 2) == 1, Bit(x, 3) == 1,
     Bit(x, 4) == 1, Bit(x, 5) == 1, Bit(x, 6) == 1, Bit(x, 7) == 1]
  }

  function WordOf(x: bv32): Word {
    LowByte(x) + LowByte(Half8(x)) + LowByte(Half8(Half8(x))) + LowByte(Half8(Half8(Half8(x))))
  }

  lemma LowByteAt(x: bv32, i: nat)
    requires i < 8
    ensures LowByte(x)[i] == (Bit(x, i) == 1)
  {
    hide Bit;
  }

  lemma SameWordOf(x: bv32)
    ensures Same(WordOf(x), x)
  {
    hide Bit, LowByte, Half8;
    var x1 := Half8(x);
    var x2 := Half8(x1);
    var x3 := Half8(x2);
    forall i | 0 <= i < 32
      ensures WordOf(x)[i] == (Bit(x, i) == 1)
    {
      if i < 8 {
        LowByteAt(x, i);
      } else {
        BitEight(x, i - 8);
        if i < 16 {
          LowByteAt(x1, i - 8);
        } else {
          BitEight(x1, i - 16);
          if i < 24 {
            LowByteAt(x2, i - 16);
          } else {
            BitEight(x2, i - 24);
            LowByteAt(x3, i - 24);
          }
        }
      }
    }
  }

  lemma SameIs(c: Word, x: bv32)
    requires Same(c, x)
    ensures c == WordOf(x)
  {
    SameWordOf(x);
    hide WordOf;
    var d := WordOf(x);
    assert forall i :: 0 <= i < 32 ==> c[i] == (Bit(x, i) == 1) && d[i] == (Bit(x, i) == 1);
  }

  lemma WordXor(x: bv32, y: bv32)
    ensures Xor(WordOf(x), WordOf(y)) == WordOf(Add(x, y))
  {
    SameWordOf(x);
    SameWordOf(y);
    hide WordOf;
    var c := Xor(WordOf(x), WordOf(y));
    forall i | 0 <= i < 32
      ensures c[i] == (Bit(Add(x, y), i) == 1)
    {
      BitXor(x, y, i);
      assert WordOf(x)[i] == (Bit(x, i) == 1) && WordOf(y)[i] == (Bit(y, i) == 1);
    }
    SameIs(c, Add(x, y));
  }

  lemma WordHalf(x: bv32)
    ensures Shr(WordOf(x), 1) == WordOf(Half(x)) && WordOf(x)[0] == Odd(x)
  {
    SameWordOf(x);
    hide WordOf, Half, Odd;
    var c := Shr(WordOf(x), 1);
    NoMoreBits(x);
    forall i | 0 <= i < 32
      ensures c[i] == (Bit(Half(x), i) == 1)
    {
      assert Bit(Half(x), i) == Bit(x, i + 1);
      assert i < 31 ==> c[i] == WordOf(x)[i + 1] == (Bit(x, i + 1) == 1);
    }
    SameIs(c, Half(x));
    assert WordOf(x)[0] == (Bit(x, 0) == 1);
  }

  // ---------- the register runs ----------

  /** One zero bit into the register. */
  function Next(x: bv32): bv32 { if Odd(x) then Add(0xedb8_8320, Half(x)) else Half(x) }

  function Nexts(n: nat, x: bv32): bv32 { if n == 0 then x else Nexts(n - 1, Next(x)) }

  lemma PolyWord()
    ensures WordOf(0xedb8_8320) == Poly()
  {
    PolyValue();
    hide Poly;
  }

  lemma WordNext(x: bv32)
    ensures FeedBit(WordOf(x), false) == WordOf(Next(x))
  {
    hide WordOf, Half, Odd, Add, Poly;
    PolyWord();
    WordHalf(x);
    WordXor(0xedb8_8320, Half(x));
  }

  lemma {:induction false} WordZeros(n: nat, x: bv32)
    ensures Zeros(n, WordOf(x)) == WordOf(Nexts(n, x))
  {
    hide WordOf, Next, FeedBit;
    if n > 0 {
      WordNext(x);
      WordZeros(n - 1, Next(x));
    }
  }

  lemma {:induction false} NextsAdd(m: nat, n: nat, x: bv32)
    ensures Nexts(m + n, x) == Nexts(n, Nexts(m, x))
  {
    hide Next;
    if m > 0 {
      NextsAdd(m - 1, n, Next(x));
    }
  }

  // ---------- the residue ----------

  /** 32 zero bits into a register of ones. */
  lemma OnesRun()
    ensures Nexts(32, 0xffff_ffff) == 0xdebb_20e3
  {
    assert Next(0xffff_ffff) == 0x9247_7cdf;
    assert Next(0x9247_7cdf) == 0xa49b_3d4f;
    assert Next(0xa49b_3d4f) == 0xbff5_1d87;
    assert Next(0xbff5_1d87) == 0xb242_0de3;
    assert Nexts(4, 0xffff_ffff) == 0xb242_0de3;
    assert Next(0xb242_0de3) == 0xb499_85d1;
    assert Next(0xb499_85d1) == 0xb7f4_41c8;
    assert Next(0xb7f4_41c8) == 0x5bfa_20e4;
    assert Next(0x5bfa_20e4) == 0x2dfd_1072;
    assert Nexts(4, 0xb242_0de3) == 0x2dfd_1072;
    assert Next(0x2dfd_1072) == 0x16fe_8839;
    assert Next(0x16fe_8839) == 0xe6c7_c73c;
    assert Next(0xe6c7_c73c) == 0x7363_e39e;
    assert Next(0x7363_e39e) == 0x39b1_f1cf;
    assert Nexts(4, 0x2dfd_1072) == 0x39b1_f1cf;
    assert Next(0x39b1_f1cf) == 0xf160_7bc7;
    assert Next(0xf160_7bc7) == 0x9508_bec3;
    assert Next(0x9508_bec3) == 0xa73c_dc41;
    assert Next(0xa73c_dc41) == 0xbe26_ed00;
    assert Nexts(4, 0x39b1_f1cf) == 0xbe26_ed00;
    assert Next(0xbe26_ed00) == 0x5f13_7680;
    assert Next(0x5f13_7680) == 0x2f89_bb40;
    assert Next(0x2f89_bb40) == 0x17c4_dda0;
    assert Next(0x17c4_dda0) == 0x0be2_6ed0;
    assert Nexts(4, 0xbe26_ed00) == 0x0be2_6ed0;
    assert Next(0x0be2_6ed0) == 0x05f1_3768;
    assert Next(0x05f1_3768) == 0x02f8_9bb4;
    assert Next(0x02f8_9bb4) == 0x017c_4dda;
    assert Next(0x017c_4dda) == 0x00be_26ed;
    assert Nexts(4, 0x0be2_6ed0) == 0x00be_26ed;
    assert Next(0x00be_26ed) == 0xede7_9056;
    assert Next(0xede7_9056) == 0x76f3_c82b;
    assert Next(0x76f3_c82b) == 0xd6c1_6735;
    assert Next(0xd6c1_6735) == 0x86d8_30ba;
    assert Nexts(4, 0x00be_26ed) == 0x86d8_30ba;
    assert Next(0x86d8_30ba) == 0x436c_185d;
    assert Next(0x436c_185d) == 0xcc0e_8f0e;
    assert Next(0xcc0e_8f0e) == 0x6607_4787;
    assert Next(0x6607_4787) == 0xdebb_20e3;
    assert Nexts(4, 0x86d8_30ba) == 0xdebb_20e3;
    NextsAdd(4, 28, 0xffff_ffff);
    NextsAdd(4, 24, 0xb242_0de3);
    NextsAdd(4, 20, 0x2dfd_1072);
    NextsAdd(4, 16, 0x39b1_f1cf);
    NextsAdd(4, 12, 0xbe26_ed00);
    NextsAdd(4, 8, 0x0be2_6ed0);
    NextsAdd(4, 4, 0x00be_26ed);
  }

  lemma Ones()
    ensures WordOf(0xffff_ffff) == seq(32, _ => true)
  {
  }

  lemma ResidueHex()
    ensures WordOf(0x2144_df1c) == Hex([0x2, 0x1, 0x4, 0x4, 0xd, 0xf, 0x1, 0xc])
  {
  }

  /** Adding ones flips every bit. */
  lemma Flipped(x: bv32)
    ensures seq(32, i requires 0 <= i < 32 => !WordOf(x)[i]) == WordOf(Add(x, 0xffff_ffff))
  {
    hide WordOf, Add;
    Ones();
    WordXor(x, 0xffff_ffff);
  }

  /** A word as the four bytes that stand for it in a stream, low byte first. */
  function LowFirst(c: Word): (b: seq<Byte>)
    ensures |b| == 4
  {
    [ByteAt(c, 0), ByteAt(c, 8), ByteAt(c, 16), ByteAt(c, 24)]
  }

  function ByteAt(c: Word, i: nat): Byte
    requires i <= 24
  {
    ValBound(c[i..i + 8]);
    Pow2Values();
    Val(c[i..i + 8])
  }

  lemma LowFirstBits(c: Word)
    ensures MessageBits(LowFirst(c)) == c
  {
    var b := LowFirst(c);
    hide Val, OfNat;
    MessageBytes(b[0], b[1], b[2], b[3]);
    OfNatVal(c[0..8]);
    OfNatVal(c[8..16]);
    OfNatVal(c[16..24]);
    OfNatVal(c[24..32]);
    assert c == c[0..8] + c[8..16] + c[16..24] + c[24..32];
  }

  lemma MessageBytes(a: Byte, b: Byte, c: Byte, d: Byte)
    ensures MessageBits([a, b, c, d]) == OfNat(a, 8) + OfNat(b, 8) + OfNat(c, 8) + OfNat(d, 8)
  {
    hide OfNat;
    MessageAppend([a], [b]);
    MessageAppend([a] + [b], [c]);
    MessageAppend([a] + [b] + [c], [d]);
    OneByteBits(a);
    OneByteBits(b);
    OneByteBits(c);
    OneByteBits(d);
    hide MessageBits;
    assert [a, b, c, d] == [a] + [b] + [c] + [d];
  }

  lemma OneByteBits(a: Byte)
    ensures MessageBits([a]) == OfNat(a, 8)
  {
    hide OfNat;
    assert [a][..0] == [];
  }

  /** A message followed by its CRC has one and the same CRC, whatever the message. */
  lemma Residue(data: seq<Byte>)
    ensures Crc(data + LowFirst(Crc(data))) == Hex([0x2, 0x1, 0x4, 0x4, 0xd, 0xf, 0x1, 0xc])
  {
    hide Register, Remainder, Feed, Zeros, LowFirst, WordOf, Hex, CrcFrom;
    var c := Crc(data);
    var r := Register(Not(Zero(32)), data);
    CrcFromRegister(Zero(32), data);
    CrcFromRegister(Zero(32), data + LowFirst(c));
    RegisterAppend(Not(Zero(32)), data, LowFirst(c));
    RegisterOf(r, LowFirst(c));
    LowFirstBits(c);
    FeedIsZeros(r, c);
    Ones();
    ResidueHex();
    Flipped(0xdebb_20e3);
    assert c + Zero(0) == c;
    assert Xor(r, c) == WordOf(0xffff_ffff);
    WordZeros(32, 0xffff_ffff);
    OnesRun();
    assert Not(WordOf(0xdebb_20e3)) == WordOf(0x2144_df1c);
  }

  lemma RegisterOf(c: Word, data: seq<Byte>)
    ensures Register(c, data) == Feed(c, MessageBits(data))
  {
  }

  // ---------- a known message ----------

  lemma SmallWord(x: bv32)
    requires Half8(x) == 0
    ensures WordOf(x) == LowByte(x) + Zero(24)
  {
    assert LowByte(0) == Zero(8);
    assert Half8(0) == 0;
    hide LowByte, Half8;
    assert Zero(8) + Zero(8) + Zero(8) == Zero(24);
  }

  /** A number whose lowest bit is b and whose other bits are those of n. */
  function Twice(b: bool, n: nat): nat { 2 * n + if b then 1 else 0 }

  lemma OneBit(b: bool, n: nat, s: seq<bool>)
    requires OfNat(n, |s|) == s
    ensures OfNat(Twice(b, n), |[b] + s|) == [b] + s
  {
    hide Twice;
    TwiceHalf(b, n);
  }

  lemma TwiceHalf(b: bool, n: nat)
    ensures Twice(b, n) / 2 == n && (Twice(b, n) % 2 == 1) == b
  {
  }

  lemma TopBits()
    ensures OfNat(3, 4) == [true, true, false, false]
  {
  }

  /** The bits of an ASCII digit. */
  lemma DigitBits(a: bool, b: bool, c: bool, d: bool)
    ensures OfNat(Twice(a, Twice(b, Twice(c, Twice(d, 3)))), 8) == [a]
        + ([b] + ([c] + ([d] + [true, true, false, false])))
  {
    hide OfNat, Twice;
    TopBits();
    var s := [true, true, false, false];
    var n := Twice(d, 3);
    OneBit(d, 3, s);
    OneBit(c, n, [d] + s);
    OneBit(b, Twice(c, n), [c] + ([d] + s));
    OneBit(a, Twice(b, Twice(c, n)), [b] + ([c] + ([d] + s)));
  }

  lemma DigitBits1()
    ensures OfNat(0x31, 8) + Zero(24) == WordOf(0x31)
    ensures OfNat(0x32, 8) + Zero(24) == WordOf(0x32)
    ensures OfNat(0x33, 8) + Zero(24) == WordOf(0x33)
  {
    hide OfNat, WordOf;
    DigitBits(true, false, false, false);
    DigitBits(false, true, false, false);
    DigitBits(true, true, false, false);
    SmallWord(0x31);
    SmallWord(0x32);
    SmallWord(0x33);
  }

  lemma DigitBits4()
    ensures OfNat(0x34, 8) + Zero(24) == WordOf(0x34)
    ensures OfNat(0x35, 8) + Zero(24) == WordOf(0x35)
    ensures OfNat(0x36, 8) + Zero(24) == WordOf(0x36)
  {
    hide OfNat, WordOf;
    DigitBits(false, false, true, false);
    DigitBits(true, false, true, false);
    DigitBits(false, true, true, false);
    SmallWord(0x34);
    SmallWord(0x35);
    SmallWord(0x36);
  }

  lemma DigitBits7()
    ensures OfNat(0x37, 8) + Zero(24) == WordOf(0x37)
    ensures OfNat(0x38, 8) + Zero(24) == WordOf(0x38)
    ensures OfNat(0x39, 8) + Zero(24) == WordOf(0x39)
  {
    hide OfNat, WordOf;
    DigitBits(true, true, true, false);
    DigitBits(false, false, false, true);
    DigitBits(true, false, false, true);
    SmallWord(0x37);
    SmallWord(0x38);
    SmallWord(0x39);
  }

  /** Eight bits into the register, four by four. */
  lemma DigitInto(r: bv32, b: Byte, x: bv32, mid: bv32, end: bv32)
    requires OfNat(b, 8) + Zero(24) == WordOf(x)
    requires Nexts(4, Add(r, x)) == mid && Nexts(4, mid) == end
    ensures Register(WordOf(r), [b]) == WordOf(end)
  {
    hide WordOf, Feed, Zeros, OfNat, Add, Nexts, Register, Xor, Zero;
    OneByteBits(b);
    RegisterOf(WordOf(r), [b]);
    FeedIsZeros(WordOf(r), OfNat(b, 8));
    WordXor(r, x);
    WordZeros(8, Add(r, x));
    NextsAdd(4, 4, Add(r, x));
  }

  lemma Digits1()
    ensures Register(WordOf(0xffff_ffff), [0x31, 0x32, 0x33]) == WordOf(0x77b7_9c2d)
  {
    hide Register, WordOf, OfNat, LowByte, Zero;
    DigitBits1();
    assert Next(0xaff5_1d84) == 0x57fa_8ec2;
    assert Next(0x57fa_8ec2) == 0x2bfd_4761;
    assert Next(0x2bfd_4761) == 0xf846_2090;
    assert Next(0xf846_2090) == 0x7c23_1048;
    DigitInto(0xffff_ffff, 0x31, 0x31, 0xaff5_1d84, 0x7c23_1048);
    DigitInto(0x7c23_1048, 0x32, 0x32, 0xd114_92ef, 0xb0ac_bb32);
    assert Next(0xb0ac_bb01) == 0xb5ee_dea0;
    assert Next(0xb5ee_dea0) == 0x5af7_6f50;
    assert Next(0x5af7_6f50) == 0x2d7b_b7a8;
    assert Next(0x2d7b_b7a8) == 0x16bd_dbd4;
    assert Next(0x16bd_dbd4) == 0x0b5e_edea;
    assert Next(0x0b5e_edea) == 0x05af_76f5;
    assert Next(0x05af_76f5) == 0xef6f_385a;
    assert Next(0xef6f_385a) == 0x77b7_9c2d;
    DigitInto(0xb0ac_bb32, 0x33, 0x33, 0x16bd_dbd4, 0x77b7_9c2d);
    Three(WordOf(0xffff_ffff), 0x31, 0x32, 0x33);
  }

  lemma Digits4()
    ensures Register(WordOf(0x77b7_9c2d), [0x34, 0x35, 0x36]) == WordOf(0xf68d_2c9e)
  {
    hide Register, WordOf, OfNat, LowByte, Zero;
    DigitBits4();
    DigitInto(0x77b7_9c2d, 0x34, 0x34, 0xf774_ea85, 0x641c_1f5c);
    assert Next(0xf64e_52b2) == 0x7b27_2959;
    assert Next(0x7b27_2959) == 0xd02b_178c;
    assert Next(0xd02b_178c) == 0x6815_8bc6;
    assert Next(0x6815_8bc6) == 0x340a_c5e3;
    DigitInto(0x641c_1f5c, 0x35, 0x35, 0xf64e_52b2, 0x340a_c5e3);
    DigitInto(0x340a_c5e3, 0x36, 0x36, 0x682b_fda9, 0xf68d_2c9e);
    Three(WordOf(0x77b7_9c2d), 0x34, 0x35, 0x36);
  }

  lemma Digits7()
    ensures Register(WordOf(0xf68d_2c9e), [0x37, 0x38, 0x39]) == WordOf(0x340b_c6d9)
  {
    hide Register, WordOf, OfNat, LowByte, Zero;
    DigitBits7();
    DigitInto(0xf68d_2c9e, 0x37, 0x37, 0xff67_418e, 0xaffc_9660);
    assert Next(0xaffc_9658) == 0x57fe_4b2c;
    assert Next(0x57fe_4b2c) == 0x2bff_2596;
    assert Next(0x2bff_2596) == 0x15ff_92cb;
    assert Next(0x15ff_92cb) == 0xe747_4a45;
    DigitInto(0xaffc_9660, 0x38, 0x38, 0xe747_4a45, 0x651f_2550);
    assert Next(0xf65e_6112) == 0x7b2f_3089;
    assert Next(0x7b2f_3089) == 0xd02f_1b64;
    assert Next(0xd02f_1b64) == 0x6817_8db2;
    assert Next(0x6817_8db2) == 0x340b_c6d9;
    DigitInto(0x651f_2550, 0x39, 0x39, 0xf65e_6112, 0x340b_c6d9);
    Three(WordOf(0xf68d_2c9e), 0x37, 0x38, 0x39);
  }

  lemma Three(c: Word, x: Byte, y: Byte, z: Byte)
    ensures Register(c, [x, y, z]) == Register(Register(Register(c, [x]), [y]), [z])
  {
    hide Register;
    RegisterAppend(c, [x], [y]);
    RegisterAppend(c, [x] + [y], [z]);
    assert [x] + [y] + [z] == [x, y, z];
  }

  /** The CRC of the nine digits from 1 to 9 is the value that goes by the name of check. */
  lemma Check()
    ensures Crc([0x31, 0x32, 0x33, 0x34, 0x35, 0x36, 0x37, 0x38, 0x39]) == Hex([0xc, 0xb, 0xf, 0x4, 0x3, 0x9, 0x2, 0x6])
  {
    hide Register, Crc, CrcFrom, WordOf, Hex;
    var ones: Word := WordOf(0xffff_ffff);
    var a, b, c := [0x31 as Byte, 0x32, 0x33], [0x34 as Byte, 0x35, 0x36], [0x37 as Byte, 0x38, 0x39];
    Digits1();
    Digits4();
    Digits7();
    RegisterAppend(ones, a, b);
    RegisterAppend(ones, a + b, c);
    assert a + b + c == [0x31, 0x32, 0x33, 0x34, 0x35, 0x36, 0x37, 0x38, 0x39];
    Ones();
    assert Not(Zero(32)) == ones;
    CrcOf(a + b + c);
    Flipped(0x340b_c6d9);
    CheckHex();
  }

  lemma CrcOf(data: seq<Byte>)
    ensures Crc(data) == Not(Register(Not(Zero(32)), data))
  {
    CrcFromRegister(Zero(32), data);
  }

  lemma CheckHex()
    ensures WordOf(Add(0x340b_c6d9, 0xffff_ffff)) == Hex([0xc, 0xb, 0xf, 0x4, 0x3, 0x9, 0x2, 0x6])
  {
  }
}
