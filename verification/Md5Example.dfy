/**
 The digest of "abc" that section A.5 of RFC 1321 prints, computed step by
 step. It fixes what no comparison of code and description can: the values of
 the constants that both use.
 */
module Md5Example {
  import opened Words
  import opened Md5Rounds
  import opened Md5Spec
  import opened Md5Hexadecimal
  import Md5Codec
  import Md5

  const ABC: seq<Byte> := [0x61, 0x62, 0x63]

  /** The one block that "abc" is padded to. */
  ghost predicate AbcBlock(x: Block) {
    && x[0] == 0x8063_6261 && x[14] == 24
    && x[1] == x[2] == x[3] == x[4] == x[5] == x[6] == x[7] == 0
    && x[8] == x[9] == x[10] == x[11] == x[12] == x[13] == x[15] == 0
  }

  lemma DigestOfAbc()
    ensures Digest(ABC) == [0x90, 0x01, 0x50, 0x98, 0x3c, 0xd2, 0x4f, 0xb0,
                            0xd6, 0x96, 0x3f, 0x7d, 0x28, 0xe1, 0x7f, 0x72]
  {
    hide Steps, Md5Codec.Unpacked, Md5Codec.Bytes, Padded, Absorb;
    var padded := Padded(ABC);
    PaddedAbc();
    AbsorbNothing(IV, []);
    assert [] + padded == padded;
    AbsorbNext(IV, [], padded);
    AllSteps(Md5Codec.Unpacked(padded));
    FinalBytes();
  }

  /** The program run on the three bytes. */
  method RunOnAbc(input: array<Byte>) returns (md5: Md5.MD5)
    requires input[..] == ABC
    ensures md5.Shape() && Md5.Shows(md5.digestChars[..32], md5.digestRaw[..])
    ensures md5.digestRaw[..] == [0x90, 0x01, 0x50, 0x98, 0x3c, 0xd2, 0x4f, 0xb0,
                                  0xd6, 0x96, 0x3f, 0x7d, 0x28, 0xe1, 0x7f, 0x72]
  {
    hide Digest, Md5.Shows;
    md5 := new Md5.MD5();
    assert input[..3] == input[..];
    md5.DigestMemory(input, 3);
    DigestOfAbc();
  }

  lemma PaddedAbc()
    ensures |Padded(ABC)| == 64 && AbcBlock(Md5Codec.Unpacked(Padded(ABC)))
  {
    BytesOfAbc();
    hide Padded;
    PacksToAbc(Padded(ABC));
  }

  ghost predicate AbcBytes(b: seq<Byte>)
    requires |b| == 64
  {
    && b[0] == 0x61 && b[1] == 0x62 && b[2] == 0x63 && b[3] == 0x80 && b[56] == 24
    && forall k :: 4 <= k < 64 && k != 56 ==> b[k] == 0
  }

  lemma BytesOfAbc()
    ensures |Padded(ABC)| == 64 && AbcBytes(Padded(ABC))
  {
    LengthOfAbc();
    hide LittleEndian64;
    var front, length := ABC + [0x80] + Zeros(52), LittleEndian64(24);
    assert Padded(ABC) == front + length;
    assert forall k :: 56 <= k < 64 ==> (front + length)[k] == length[k - 56];
  }

  lemma PacksToAbc(b: seq<Byte>)
    requires |b| == 64 && AbcBytes(b)
    ensures AbcBlock(Md5Codec.Unpacked(b))
  {
    hide Md5Codec.Unpacked;
    assert Md5Codec.Pack(0x61, 0x62, 0x63, 0x80) == 0x8063_6261;
    PackedAt(b, 0);
    PackedAt(b, 14);
    forall i | 1 <= i < 16 && i != 14
      ensures Md5Codec.Unpacked(b)[i] == 0
    {
      PackedAt(b, i);
    }
  }

  lemma PackedAt(b: seq<Byte>, i: nat)
    requires |b| == 64 && i < 16
    ensures Md5Codec.Unpacked(b)[i] == Md5Codec.Pack(b[4 * i], b[4 * i + 1], b[4 * i + 2], b[4 * i + 3])
  {
  }

  lemma LengthOfAbc()
    ensures LittleEndian64(24)[0] == 24 && forall k :: 1 <= k < 8 ==> LittleEndian64(24)[k] == 0
  {
    Pow2Zero();
    forall k | 1 <= k < 8
      ensures LittleEndian64(24)[k] == 0
    {
      Pow2AtLeast(8 * k);
      Quotients(Pow2(8 * k));
    }
    hide Pow2;
    Quotients(1);
  }

  lemma Quotients(p: nat)
    requires p == 1 || p > 24
    ensures 24 / p % 0x100 == if p == 1 then 24 else 0
  {
  }

  lemma {:induction false} Pow2AtLeast(n: nat)
    requires n >= 8
    ensures Pow2(n) > 24
  {
    if n > 8 {
      Pow2AtLeast(n - 1);
    }
  }

  /** The four words after the final additions, low-order bytes first. */
  lemma FinalBytes()
    ensures StateBytes(AddQuads(IV, Quad(0x310a_de8f, 0xc082_26b3, 0xe484_b9d8, 0x624d_8cb2)))
         == [0x90, 0x01, 0x50, 0x98, 0x3c, 0xd2, 0x4f, 0xb0, 0xd6, 0x96, 0x3f, 0x7d, 0x28, 0xe1, 0x7f, 0x72]
  {
    var q := Quad(0x9850_0190, 0xb04f_d23c, 0x7d3f_96d6, 0x727f_e128);
    assert AddQuads(IV, Quad(0x310a_de8f, 0xc082_26b3, 0xe484_b9d8, 0x624d_8cb2)) == q;
    var bytes := [0x90, 0x01, 0x50, 0x98, 0x3c, 0xd2, 0x4f, 0xb0, 0xd6, 0x96, 0x3f, 0x7d, 0x28, 0xe1, 0x7f, 0x72];
    var words := [q.a, q.b, q.c, q.d];
    hide Md5Codec.Bytes, Md5Codec.Pack;
    assert Md5Codec.Unpacked(bytes) == words by {
      PackedBytes();
    }
    Md5Codec.BytesUnpack(bytes);
  }

  lemma PackedBytes()
    ensures Md5Codec.Pack(0x90, 0x01, 0x50, 0x98) == 0x9850_0190
    ensures Md5Codec.Pack(0x3c, 0xd2, 0x4f, 0xb0) == 0xb04f_d23c
    ensures Md5Codec.Pack(0xd6, 0x96, 0x3f, 0x7d) == 0x7d3f_96d6
    ensures Md5Codec.Pack(0x28, 0xe1, 0x7f, 0x72) == 0x727f_e128
  {
  }

  lemma AllSteps(x: Block)
    requires AbcBlock(x)
    ensures Steps(64, x, IV) == Quad(0x310a_de8f, 0xc082_26b3, 0xe484_b9d8, 0x624d_8cb2)
  {
    assert Steps(0, x, IV) == IV;
    hide *;
    Steps1To4(x);
    Steps5To8(x);
    Steps9To12(x);
    Steps13To16(x);
    Steps17To20(x);
    Steps21To24(x);
    Steps25To28(x);
    Steps29To32(x);
    Steps33To36(x);
    Steps37To40(x);
    Steps41To44(x);
    Steps45To48(x);
    Steps49To52(x);
    Steps53To56(x);
    Steps57To60(x);
    Steps61To64(x);
  }

  lemma Steps1To4(x: Block)
    requires AbcBlock(x) && Steps(0, x, IV) == Quad(0x6745_2301, 0xefcd_ab89, 0x98ba_dcfe, 0x1032_5476)
    ensures Steps(4, x, IV) == Quad(0xd6d1_17b4, 0x7ad9_56f2, 0x2f6f_bd72, 0x344a_8432)
  {
    hide Steps, HexValue;
    DigitValues();
    var a, b := Numeral(X6, X7, X4, X5, X2, X3, X0, X1), Numeral(XE, XF, XC, XD, XA, XB, X8, X9);
    var c, d := Numeral(X9, X8, XB, XA, XD, XC, XF, XE), Numeral(X1, X0, X3, X2, X5, X4, X7, X6);
    var r0 := Numeral(XD, X6, XD, X1, X1, X7, XB, X4);
    StepIs(0, x, a, b, c, d,
           Numeral(X9, X8, XB, XA, XD, XC, XF, XE), 0x57ce_06d8, 0x0000_0080, 0x0200_0000, 0xe703_6c2b, r0);
    var r1 := Numeral(X3, X4, X4, XA, X8, X4, X3, X2);
    StepIs(1, x, d, r0, b, c,
           Numeral(XC, XE, XE, XB, XC, XB, XC, XA), 0xc7e5_d796, 0x0000_1000, 0x0010_0000, 0x5d79_6c7e, r1);
    var r2 := Numeral(X2, XF, X6, XF, XB, XD, X7, X2);
    StepIs(2, x, c, r1, r0, b,
           Numeral(XD, XF, XC, X5, X2, XF, XB, X9), 0x9ca0_7d92, 0x0002_0000, 0x0000_8000, 0xfb25_3940, r2);
    var r3 := Numeral(X7, XA, XD, X9, X5, X6, XF, X2);
    StepIs(3, x, b, r2, r1, r0,
           Numeral(XF, X4, XD, XA, X8, X6, XB, X6), 0xa666_012d, 0x0040_0000, 0x0000_0400, 0x4b69_9980, r3);
  }

  lemma Steps5To8(x: Block)
    requires AbcBlock(x) && Steps(4, x, IV) == Quad(0xd6d1_17b4, 0x7ad9_56f2, 0x2f6f_bd72, 0x344a_8432)
    ensures Steps(8, x, IV) == Quad(0xc737_41ef, 0x928d_99f6, 0x207d_c67b, 0x8bac_3051)
  {
    hide Steps, HexValue;
    DigitValues();
    var a, b := Numeral(XD, X6, XD, X1, X1, X7, XB, X4), Numeral(X7, XA, XD, X9, X5, X6, XF, X2);
    var c, d := Numeral(X2, XF, X6, XF, XB, XD, X7, X2), Numeral(X3, X4, X4, XA, X8, X4, X3, X2);
    var r0 := Numeral(XC, X7, X3, X7, X4, X1, XE, XF);
    StepIs(4, x, a, b, c, d,
           Numeral(X2, XE, X4, XB, X9, X4, X7, X2), 0xfa98_bbd5, 0x0000_0080, 0x0200_0000, 0x4c5d_eafd, r0);
    var r1 := Numeral(X8, XB, XA, XC, X3, X0, X5, X1);
    StepIs(5, x, d, r0, b, c,
           Numeral(X6, XA, X5, X9, XF, XC, XF, X2), 0xe62c_474e, 0x0000_1000, 0x0010_0000, 0xc474_ee62, r1);
    var r2 := Numeral(X2, X0, X7, XD, XC, X6, X7, XB);
    StepIs(6, x, c, r1, r0, b,
           Numeral(XF, X3, X7, X5, X4, X6, XE, X3), 0xcb15_4a68, 0x0002_0000, 0x0000_8000, 0x94d1_962a, r2);
    var r3 := Numeral(X9, X2, X8, XD, X9, X9, XF, X6);
    StepIs(7, x, b, r2, r1, r0,
           Numeral(XC, X7, X2, XE, X0, X1, XD, X5), 0x3f4d_edc8, 0x0040_0000, 0x0000_0400, 0x720f_d37b, r3);
  }

  lemma Steps9To12(x: Block)
    requires AbcBlock(x) && Steps(8, x, IV) == Quad(0xc737_41ef, 0x928d_99f6, 0x207d_c67b, 0x8bac_3051)
    ensures Steps(12, x, IV) == Quad(0x854b_3712, 0x5ed4_9596, 0x3020_401c, 0x74e2_f284)
  {
    hide Steps, HexValue;
    DigitValues();
    var a, b := Numeral(XC, X7, X3, X7, X4, X1, XE, XF), Numeral(X9, X2, X8, XD, X9, X9, XF, X6);
    var c, d := Numeral(X2, X0, X7, XD, XC, X6, X7, XB), Numeral(X8, XB, XA, XC, X3, X0, X5, X1);
    var r0 := Numeral(X8, X5, X4, XB, X3, X7, X1, X2);
    StepIs(8, x, a, b, c, d,
           Numeral(X0, X9, X2, XD, XA, X0, X7, X3), 0x39e5_7b3a, 0x0000_0080, 0x0200_0000, 0xf2bd_9d1c, r0);
    var r1 := Numeral(X7, X4, XE, X2, XF, X2, X8, X4);
    StepIs(9, x, d, r0, b, c,
           Numeral(XA, X0, X3, XD, XD, X1, X7, XB), 0xb72e_f97b, 0x0000_1000, 0x0010_0000, 0xef97_bb72, r1);
    var r2 := Numeral(X3, X0, X2, X0, X4, X0, X1, XC);
    StepIs(10, x, c, r1, r0, b,
           Numeral(X8, X6, X4, XF, X3, XB, X7, X2), 0xa6cc_5d9e, 0x0002_0000, 0x0000_8000, 0xbb3d_4d98, r2);
    var r3 := Numeral(X5, XE, XD, X4, X9, X5, X9, X6);
    StepIs(11, x, b, r2, r1, r0,
           Numeral(XB, X5, X6, XB, X7, X7, X0, X6), 0xd155_e8ba, 0x0040_0000, 0x0000_0400, 0x2eb4_557a, r3);
  }

  lemma Steps13To16(x: Block)
    requires AbcBlock(x) && Steps(12, x, IV) == Quad(0x854b_3712, 0x5ed4_9596, 0x3020_401c, 0x74e2_f284)
    ensures Steps(16, x, IV) == Quad(0xdda9_b9a6, 0x72af_f2e0, 0xe396_856b, 0xa105_1895)
  {
    hide Steps, HexValue;
    DigitValues();
    var a, b := Numeral(X8, X5, X4, XB, X3, X7, X1, X2), Numeral(X5, XE, XD, X4, X9, X5, X9, X6);
    var c, d := Numeral(X3, X0, X2, X0, X4, X0, X1, XC), Numeral(X7, X4, XE, X2, XF, X2, X8, X4);
    var r0 := Numeral(XD, XD, XA, X9, XB, X9, XA, X6);
    StepIs(12, x, a, b, c, d,
           Numeral(X3, X0, X2, X2, X6, X2, X1, X4), 0x20fd_aa48, 0x0000_0080, 0x0200_0000, 0x7ed5_2410, r0);
    var r1 := Numeral(XA, X1, X0, X5, X1, X8, X9, X5);
    StepIs(13, x, d, r0, b, c,
           Numeral(X7, XC, X8, X0, XD, X1, X9, XE), 0xeefc_35b5, 0x0000_1000, 0x0010_0000, 0xc35b_5eef, r1);
    var r2 := Numeral(XE, X3, X9, X6, X8, X5, X6, XB);
    StepIs(14, x, c, r1, r0, b,
           Numeral(XD, XF, XD, X1, X9, XD, X8, X6), 0xb66b_2148, 0x0002_0000, 0x0000_8000, 0x4291_6cd6, r2);
    var r3 := Numeral(X7, X2, XA, XF, XF, X2, XE, X0);
    StepIs(15, x, b, r2, r1, r0,
           Numeral(XB, XD, X2, XD, X3, X8, X8, X5), 0x65b5_d63c, 0x0040_0000, 0x0000_0400, 0x8f19_6d75, r3);
  }

  lemma Steps17To20(x: Block)
    requires AbcBlock(x) && Steps(16, x, IV) == Quad(0xdda9_b9a6, 0x72af_f2e0, 0xe396_856b, 0xa105_1895)
    ensures Steps(20, x, IV) == Quad(0x3e9e_9126, 0xb5b2_04e4, 0xe25e_1652, 0x4a1d_804e)
  {
    hide Steps, HexValue;
    DigitValues();
    var a, b := Numeral(XD, XD, XA, X9, XB, X9, XA, X6), Numeral(X7, X2, XA, XF, XF, X2, XE, X0);
    var c, d := Numeral(XE, X3, X9, X6, X8, X5, X6, XB), Numeral(XA, X1, X0, X5, X1, X8, X9, X5);
    var r0 := Numeral(X3, XE, X9, XE, X9, X1, X2, X6);
    StepIs(16, x, a, b, c, d,
           Numeral(X6, X2, X9, X7, X9, X5, XE, XA), 0x365f_74f2, 0x0000_0020, 0x0800_0000, 0xcbee_9e46, r0);
    var r1 := Numeral(X4, XA, X1, XD, X8, X0, X4, XE);
    StepIs(17, x, d, r0, b, c,
           Numeral(X3, X2, XB, XF, XF, X3, XA, X2), 0x9405_bf77, 0x0000_0200, 0x0080_0000, 0x0b7e_ef28, r1);
    var r2 := Numeral(XE, X2, X5, XE, X1, X6, X5, X2);
    StepIs(18, x, c, r1, r0, b,
           Numeral(X4, XE, X1, XD, X8, X1, X4, X6), 0x5812_6102, 0x0000_4000, 0x0004_0000, 0x9840_9604, r2);
    var r3 := Numeral(XB, X5, XB, X2, X0, X4, XE, X4);
    StepIs(19, x, b, r2, r1, r0,
           Numeral(X6, X2, X1, XF, X1, X0, X4, XA), 0x3ee9_2d35, 0x0010_0000, 0x0000_1000, 0xd353_ee92, r3);
  }

  lemma Steps21To24(x: Block)
    requires AbcBlock(x) && Steps(20, x, IV) == Quad(0x3e9e_9126, 0xb5b2_04e4, 0xe25e_1652, 0x4a1d_804e)
    ensures Steps(24, x, IV) == Quad(0x59a8_ffda, 0x4709_2c07, 0xabfc_7920, 0x6d00_2f1e)
  {
    hide Steps, HexValue;
    DigitValues();
    var a, b := Numeral(X3, XE, X9, XE, X9, X1, X2, X6), Numeral(XB, X5, XB, X2, X0, X4, XE, X4);
    var c, d := Numeral(XE, X2, X5, XE, X1, X6, X5, X2), Numeral(X4, XA, X1, XD, X8, X0, X4, XE);
    var r0 := Numeral(X5, X9, XA, X8, XF, XF, XD, XA);
    StepIs(20, x, a, b, c, d,
           Numeral(XA, X0, X5, X2, X1, X6, X5, X4), 0xb51f_b7d7, 0x0000_0020, 0x0800_0000, 0xa3f6_faf6, r0);
    var r1 := Numeral(X6, XD, X0, X0, X2, XF, X1, XE);
    StepIs(21, x, d, r0, b, c,
           Numeral(X5, X5, XA, X8, X1, X6, XF, X6), 0xa209_ab97, 0x0000_0200, 0x0080_0000, 0x1357_2f44, r1);
    var r2 := Numeral(XA, XB, XF, XC, X7, X9, X2, X0);
    StepIs(22, x, c, r1, r0, b,
           Numeral(X6, XD, X0, X8, XF, XF, X1, XE), 0x2808_fbf1, 0x0000_4000, 0x0004_0000, 0x3efc_4a02, r2);
    var r3 := Numeral(X4, X7, X0, X9, X2, XC, X0, X7);
    StepIs(23, x, b, r2, r1, r0,
           Numeral(X2, XD, XA, X8, X7, X9, X0, X4), 0xcb2e_79b0, 0x0010_0000, 0x0000_1000, 0x9b0c_b2e7, r3);
  }

  lemma Steps25To28(x: Block)
    requires AbcBlock(x) && Steps(24, x, IV) == Quad(0x59a8_ffda, 0x4709_2c07, 0xabfc_7920, 0x6d00_2f1e)
    ensures Steps(28, x, IV) == Quad(0xb7f2_68cf, 0x786a_cb8f, 0xfe16_23b1, 0x0938_8eff)
  {
    hide Steps, HexValue;
    DigitValues();
    var a, b := Numeral(X5, X9, XA, X8, XF, XF, XD, XA), Numeral(X4, X7, X0, X9, X2, XC, X0, X7);
    var c, d := Numeral(XA, XB, XF, XC, X7, X9, X2, X0), Numeral(X6, XD, X0, X0, X2, XF, X1, XE);
    var r0 := Numeral(XB, X7, XF, X2, X6, X8, XC, XF);
    StepIs(24, x, a, b, c, d,
           Numeral(XC, X7, XF, XC, X7, XC, X2, X6), 0x4387_49e6, 0x0000_0020, 0x0800_0000, 0x70e9_3cc8, r0);
    var r1 := Numeral(X0, X9, X3, X8, X8, XE, XF, XF);
    StepIs(25, x, d, r0, b, c,
           Numeral(XE, X7, XF, X1, X6, XC, X0, X7), 0x1828_a313, 0x0000_0200, 0x0080_0000, 0x5146_2630, r1);
    var r2 := Numeral(XF, XE, X1, X6, X2, X3, XB, X1);
    StepIs(26, x, c, r1, r0, b,
           Numeral(XB, X1, XF, XA, X4, XC, XC, XF), 0x52cb_d376, 0x0000_4000, 0x0004_0000, 0xf4dd_94b2, r2);
    var r3 := Numeral(X7, X8, X6, XA, XC, XB, X8, XF);
    StepIs(27, x, b, r2, r1, r0,
           Numeral(XB, XE, X1, XA, XA, X6, XB, X1), 0x4a7d_e7a5, 0x0010_0000, 0x0000_1000, 0x7a54_a7de, r3);
  }

  lemma Steps29To32(x: Block)
    requires AbcBlock(x) && Steps(28, x, IV) == Quad(0xb7f2_68cf, 0x786a_cb8f, 0xfe16_23b1, 0x0938_8eff)
    ensures Steps(32, x, IV) == Quad(0x790a_77fb, 0x7263_42d3, 0xa628_84aa, 0x9f47_e4f8)
  {
    hide Steps, HexValue;
    DigitValues();
    var a, b := Numeral(XB, X7, XF, X2, X6, X8, XC, XF), Numeral(X7, X8, X6, XA, XC, XB, X8, XF);
    var c, d := Numeral(XF, XE, X1, X6, X2, X3, XB, X1), Numeral(X0, X9, X3, X8, X8, XE, XF, XF);
    var r0 := Numeral(X7, X9, X0, XA, X7, X7, XF, XB);
    StepIs(28, x, a, b, c, d,
           Numeral(XF, XE, X2, XE, XA, XB, X8, XF), 0x6004_fd63, 0x0000_0020, 0x0800_0000, 0x009f_ac6c, r0);
    var r1 := Numeral(X9, XF, X4, X7, XE, X4, XF, X8);
    StepIs(29, x, d, r0, b, c,
           Numeral(X7, X8, X6, XA, XE, XB, XB, XF), 0x7e93_1eb6, 0x0000_0200, 0x0080_0000, 0x263d_6cfd, r1);
    var r2 := Numeral(XA, X6, X2, X8, X8, X4, XA, XA);
    StepIs(30, x, c, r1, r0, b,
           Numeral(X1, X9, X4, X2, XF, X4, XF, X8), 0x7ec8_1b82, 0x0000_4000, 0x0004_0000, 0x06e0_9fb2, r2);
    var r3 := Numeral(X7, X2, X6, X3, X4, X2, XD, X3);
    StepIs(31, x, b, r2, r1, r0,
           Numeral(XA, X6, X4, XD, X8, X4, XA, XA), 0xabe2_9cc3, 0x0010_0000, 0x0000_1000, 0xcc3a_be29, r3);
  }

  lemma Steps33To36(x: Block)
    requires AbcBlock(x) && Steps(32, x, IV) == Quad(0x790a_77fb, 0x7263_42d3, 0xa628_84aa, 0x9f47_e4f8)
    ensures Steps(36, x, IV) == Quad(0xb370_7ebf, 0x3b08_75c7, 0x8d21_2ff5, 0x6012_7b2e)
  {
    hide Steps, HexValue;
    DigitValues();
    var a, b := Numeral(X7, X9, X0, XA, X7, X7, XF, XB), Numeral(X7, X2, X6, X3, X4, X2, XD, X3);
    var c, d := Numeral(XA, X6, X2, X8, X8, X4, XA, XA), Numeral(X9, XF, X4, X7, XE, X4, XF, X8);
    var r0 := Numeral(XB, X3, X7, X0, X7, XE, XB, XF);
    StepIs(32, x, a, b, c, d,
           Numeral(X4, XB, X0, XC, X2, X2, X8, X1), 0xc410_d3be, 0x0000_0010, 0x1000_0000, 0x410d_3bec, r0);
    var r1 := Numeral(X6, X0, X1, X2, X7, XB, X2, XE);
    StepIs(33, x, d, r0, b, c,
           Numeral(X6, X7, X3, XB, XB, X8, XC, X6), 0x8df5_943f, 0x0000_0800, 0x0020_0000, 0xaca1_fc6f, r1);
    var r2 := Numeral(X8, XD, X2, X1, X2, XF, XF, X5);
    StepIs(34, x, c, r1, r0, b,
           Numeral(XA, X1, X0, X1, X4, X7, X4, X2), 0xb4c7_2d0e, 0x0001_0000, 0x0001_0000, 0x2d0e_b4c7, r2);
    var r3 := Numeral(X3, XB, X0, X8, X7, X5, XC, X7);
    StepIs(35, x, b, r2, r1, r0,
           Numeral(X5, XE, X4, X3, X2, XA, X6, X4), 0xce8b_a55b, 0x0080_0000, 0x0000_0200, 0xade7_45d2, r3);
  }

  lemma Steps37To40(x: Block)
    requires AbcBlock(x) && Steps(36, x, IV) == Quad(0xb370_7ebf, 0x3b08_75c7, 0x8d21_2ff5, 0x6012_7b2e)
    ensures Steps(40, x, IV) == Quad(0x21b1_17b9, 0x5a2f_5ea5, 0x3575_227e, 0x6e74_29d5)
  {
    hide Steps, HexValue;
    DigitValues();
    var a, b := Numeral(XB, X3, X7, X0, X7, XE, XB, XF), Numeral(X3, XB, X0, X8, X7, X5, XC, X7);
    var c, d := Numeral(X8, XD, X2, X1, X2, XF, XF, X5), Numeral(X6, X0, X1, X2, X7, XB, X2, XE);
    var r0 := Numeral(X2, X1, XB, X1, X1, X7, XB, X9);
    StepIs(36, x, a, b, c, d,
           Numeral(XD, X6, X3, XB, X2, X1, X1, XC), 0x2e6a_8a1f, 0x0000_0010, 0x1000_0000, 0xe6a8_a1f2, r0);
    var r1 := Numeral(X6, XE, X7, X4, X2, X9, XD, X5);
    StepIs(37, x, d, r0, b, c,
           Numeral(X9, X7, X9, X8, X4, XD, X8, XB), 0x4389_9862, 0x0000_0800, 0x0020_0000, 0x4cc3_121c, r1);
    var r2 := Numeral(X3, X5, X7, X5, X2, X2, X7, XE);
    StepIs(38, x, c, r1, r0, b,
           Numeral(X7, X4, XC, XD, X4, XB, XA, XB), 0xf8a9_c700, 0x0001_0000, 0x0001_0000, 0xc700_f8a9, r2);
    var r3 := Numeral(X5, XA, X2, XF, X5, XE, XA, X5);
    StepIs(39, x, b, r2, r1, r0,
           Numeral(X7, XA, XB, X0, X1, XC, X1, X2), 0x7478_4e49, 0x0080_0000, 0x0000_0200, 0x24ba_3c27, r3);
  }

  lemma Steps41To44(x: Block)
    requires AbcBlock(x) && Steps(40, x, IV) == Quad(0x21b1_17b9, 0x5a2f_5ea5, 0x3575_227e, 0x6e74_29d5)
    ensures Steps(44, x, IV) == Quad(0x11de_1779, 0x4c61_24f4, 0x31c4_65ca, 0xfadc_aa38)
  {
    hide Steps, HexValue;
    DigitValues();
    var a, b := Numeral(X2, X1, XB, X1, X1, X7, XB, X9), Numeral(X5, XA, X2, XF, X5, XE, XA, X5);
    var c, d := Numeral(X3, X5, X7, X5, X2, X2, X7, XE), Numeral(X6, XE, X7, X4, X2, X9, XD, X5);
    var r0 := Numeral(X1, X1, XD, XE, X1, X7, X7, X9);
    StepIs(40, x, a, b, c, d,
           Numeral(X0, X1, X2, XE, X5, X5, X0, XE), 0x4b7a_eb8d, 0x0000_0010, 0x1000_0000, 0xb7ae_b8d4, r0);
    var r1 := Numeral(XF, XA, XD, XC, XA, XA, X3, X8);
    StepIs(41, x, d, r0, b, c,
           Numeral(X7, XE, X8, X4, X6, XB, XA, X2), 0x57fd_1fd2, 0x0000_0800, 0x0020_0000, 0xe8fe_92bf, r1);
    var r2 := Numeral(X3, X1, XC, X4, X6, X5, XC, XA);
    StepIs(42, x, c, r1, r0, b,
           Numeral(XB, X1, X2, XD, XE, X3, XE, X4), 0xbb92_36e7, 0x0001_0000, 0x0001_0000, 0x36e7_bb92, r2);
    var r3 := Numeral(X4, XC, X6, X1, X2, X4, XF, X4);
    StepIs(43, x, b, r2, r1, r0,
           Numeral(XD, XA, XC, X6, XD, X8, X8, XB), 0x397e_5435, 0x0080_0000, 0x0000_0200, 0x1a9c_bf2a, r3);
  }

  lemma Steps45To48(x: Block)
    requires AbcBlock(x) && Steps(44, x, IV) == Quad(0x11de_1779, 0x4c61_24f4, 0x31c4_65ca, 0xfadc_aa38)
    ensures Steps(48, x, IV) == Quad(0x7f2e_507b, 0x7beb_9700, 0x8fae_6399, 0x99d9_679d)
  {
    hide Steps, HexValue;
    DigitValues();
    var a, b := Numeral(X1, X1, XD, XE, X1, X7, X7, X9), Numeral(X4, XC, X6, X1, X2, X4, XF, X4);
    var c, d := Numeral(X3, X1, XC, X4, X6, X5, XC, XA), Numeral(XF, XA, XD, XC, XA, XA, X3, X8);
    var r0 := Numeral(X7, XF, X2, XE, X5, X0, X7, XB);
    StepIs(44, x, a, b, c, d,
           Numeral(X8, X7, X7, X9, XE, XB, X0, X6), 0x732c_d2b8, 0x0000_0010, 0x1000_0000, 0x32cd_2b87, r0);
    var r1 := Numeral(X9, X9, XD, X9, X6, X7, X9, XD);
    StepIs(45, x, d, r0, b, c,
           Numeral(X0, X2, X8, XB, X1, X1, X4, X5), 0xe443_5562, 0x0000_0800, 0x0020_0000, 0x1aab_1722, r1);
    var r2 := Numeral(X8, XF, XA, XE, X6, X3, X9, X9);
    StepIs(46, x, c, r1, r0, b,
           Numeral(XA, XA, X9, X6, X1, X3, X1, X2), 0xfbfc_f5d4, 0x0001_0000, 0x0001_0000, 0xf5d4_fbfc, r2);
    var r3 := Numeral(X7, XB, XE, XB, X9, X7, X0, X0);
    StepIs(47, x, b, r2, r1, r0,
           Numeral(X6, X9, X5, X9, X5, X4, X7, XF), 0x7a66_cfd8, 0x0080_0000, 0x0000_0200, 0xec3d_3367, r3);
  }

  lemma Steps49To52(x: Block)
    requires AbcBlock(x) && Steps(48, x, IV) == Quad(0x7f2e_507b, 0x7beb_9700, 0x8fae_6399, 0x99d9_679d)
    ensures Steps(52, x, IV) == Quad(0x7b20_1df8, 0x8bf0_25c4, 0xb298_cefd, 0xf4e8_e96e)
  {
    hide Steps, HexValue;
    DigitValues();
    var a, b := Numeral(X7, XF, X2, XE, X5, X0, X7, XB), Numeral(X7, XB, XE, XB, X9, X7, X0, X0);
    var c, d := Numeral(X8, XF, XA, XE, X6, X3, X9, X9), Numeral(X9, X9, XD, X9, X6, X7, X9, XD);
    var r0 := Numeral(X7, XB, X2, X0, X1, XD, XF, X8);
    StepIs(48, x, a, b, c, d,
           Numeral(XF, X0, X4, X1, XF, XC, XF, XB), 0xe3fc_d21b, 0x0000_0040, 0x0400_0000, 0xff34_86f8, r0);
    var r1 := Numeral(XF, X4, XE, X8, XE, X9, X6, XE);
    StepIs(49, x, d, r0, b, c,
           Numeral(X0, X0, X9, XA, X0, XA, XF, XE), 0xdd9e_7232, 0x0000_0400, 0x0040_0000, 0x79c8_cb76, r1);
    var r2 := Numeral(XB, X2, X9, X8, XC, XE, XF, XD);
    StepIs(50, x, c, r1, r0, b,
           Numeral(X8, XF, XD, XC, XF, X4, X0, X7), 0xcb1f_7b5f, 0x0000_8000, 0x0002_0000, 0xbdaf_e58f, r2);
    var r3 := Numeral(X8, XB, XF, X0, X2, X5, XC, X4);
    StepIs(51, x, b, r2, r1, r0,
           Numeral(X4, X2, X3, X7, X0, X7, X9, X1), 0xbab6_3eca, 0x0020_0000, 0x0000_0800, 0xd957_56c7, r3);
  }

  lemma Steps53To56(x: Block)
    requires AbcBlock(x) && Steps(52, x, IV) == Quad(0x7b20_1df8, 0x8bf0_25c4, 0xb298_cefd, 0xf4e8_e96e)
    ensures Steps(56, x, IV) == Quad(0x06cc_5e8a, 0x3bfa_2c27, 0x7d63_2dd0, 0x5b0d_97aa)
  {
    hide Steps, HexValue;
    DigitValues();
    var a, b := Numeral(X7, XB, X2, X0, X1, XD, XF, X8), Numeral(X8, XB, XF, X0, X2, X5, XC, X4);
    var c, d := Numeral(XB, X2, X9, X8, XC, XE, XF, XD), Numeral(XF, X4, XE, X8, XE, X9, X6, XE);
    var r0 := Numeral(X0, X6, XC, XC, X5, XE, X8, XA);
    StepIs(52, x, a, b, c, d,
           Numeral(X3, X9, X6, XF, XF, X9, X2, X8), 0x19eb_70e3, 0x0000_0040, 0x0400_0000, 0x7adc_38c6, r0);
    var r1 := Numeral(X5, XB, X0, XD, X9, X7, XA, XA);
    StepIs(53, x, d, r0, b, c,
           Numeral(XC, X4, X1, XF, X5, XA, X4, XE), 0x4815_104e, 0x0000_0400, 0x0040_0000, 0x5441_3920, r1);
    var r2 := Numeral(X7, XD, X6, X3, X2, XD, XD, X0);
    StepIs(54, x, c, r1, r0, b,
           Numeral(X7, X9, XC, X3, X8, X1, X3, X1), 0x2c4c_44ab, 0x0000_8000, 0x0002_0000, 0x2255_9626, r2);
    var r3 := Numeral(X3, XB, XF, XA, X2, XC, X2, X7);
    StepIs(55, x, b, r2, r1, r0,
           Numeral(XA, X6, X7, XE, X3, XA, X5, XF), 0xb7f2_bdf4, 0x0020_0000, 0x0000_0800, 0xbe96_fe57, r3);
  }

  lemma Steps57To60(x: Block)
    requires AbcBlock(x) && Steps(56, x, IV) == Quad(0x06cc_5e8a, 0x3bfa_2c27, 0x7d63_2dd0, 0x5b0d_97aa)
    ensures Steps(60, x, IV) == Quad(0x7f81_cc35, 0x7327_d604, 0x4f9d_be3f, 0x0944_54ab)
  {
    hide Steps, HexValue;
    DigitValues();
    var a, b := Numeral(X0, X6, XC, XC, X5, XE, X8, XA), Numeral(X3, XB, XF, XA, X2, XC, X2, X7);
    var c, d := Numeral(X7, XD, X6, X3, X2, XD, XD, X0), Numeral(X5, XB, X0, XD, X9, X7, XA, XA);
    var r0 := Numeral(X7, XF, X8, X1, XC, XC, X3, X5);
    StepIs(56, x, a, b, c, d,
           Numeral(XC, X2, X9, X9, X4, X1, XA, X7), 0x390e_1e80, 0x0000_0040, 0x0400_0000, 0x4387_a00e, r0);
    var r1 := Numeral(X0, X9, X4, X4, X5, X4, XA, XB);
    StepIs(57, x, d, r0, b, c,
           Numeral(XC, X4, X6, X7, XF, X2, X1, X8), 0x1da2_70a2, 0x0000_0400, 0x0040_0000, 0x89c2_8876, r1);
    var r2 := Numeral(X4, XF, X9, XD, XB, XE, X3, XF);
    StepIs(58, x, c, r1, r0, b,
           Numeral(XB, X2, XC, X4, X1, XB, XC, XE), 0xd328_8cb2, 0x0000_8000, 0x0002_0000, 0x4659_6994, r2);
    var r3 := Numeral(X7, X3, X2, X7, XD, X6, X0, X4);
    StepIs(59, x, b, r2, r1, r0,
           Numeral(XC, X6, XB, XB, XE, XB, X5, X4), 0x50be_291c, 0x0020_0000, 0x0000_0800, 0x238a_17c5, r3);
  }

  lemma Steps61To64(x: Block)
    requires AbcBlock(x) && Steps(60, x, IV) == Quad(0x7f81_cc35, 0x7327_d604, 0x4f9d_be3f, 0x0944_54ab)
    ensures Steps(64, x, IV) == Quad(0x310a_de8f, 0xc082_26b3, 0xe484_b9d8, 0x624d_8cb2)
  {
    hide Steps, HexValue;
    DigitValues();
    var a, b := Numeral(X7, XF, X8, X1, XC, XC, X3, X5), Numeral(X7, X3, X2, X7, XD, X6, X0, X4);
    var c, d := Numeral(X4, XF, X9, XD, XB, XE, X3, XF), Numeral(X0, X9, X4, X4, X5, X4, XA, XB);
    var r0 := Numeral(X3, X1, X0, XA, XD, XE, X8, XF);
    StepIs(60, x, a, b, c, d,
           Numeral(XB, X8, X2, X2, X4, X1, X6, XB), 0x2ef7_8c22, 0x0000_0040, 0x0400_0000, 0xbde3_088b, r0);
    var r1 := Numeral(X6, X2, X4, XD, X8, XC, XB, X2);
    StepIs(61, x, d, r0, b, c,
           Numeral(XC, X2, X4, XD, X0, X9, XC, XB), 0x88cc_50ab, 0x0000_0400, 0x0040_0000, 0x3142_ae23, r1);
    var r2 := Numeral(XE, X4, X8, X4, XB, X9, XD, X8);
    StepIs(62, x, c, r1, r0, b,
           Numeral(XD, XF, XD, X7, X7, X3, X7, X4), 0x5a4d_046e, 0x0000_8000, 0x0002_0000, 0x8237_2d26, r2);
    var r3 := Numeral(XC, X0, X8, X2, X2, X6, XB, X3);
    StepIs(63, x, b, r2, r1, r0,
           Numeral(X8, XC, XB, X8, X3, X5, X4, XA), 0xeb66_dedf, 0x0020_0000, 0x0000_0800, 0xdbfd_6cdb, r3);
  }
}
