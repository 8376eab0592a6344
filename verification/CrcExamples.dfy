/** The library's checksums of "abcdefg", and of messages with a zero byte in front. */
module CrcExamples {
  import Arith
  import opened Bits
  import opened Division
  import opened CrcTables
  import opened CrcWords
  import opened Loops = Crc

  // ---- the five polynomials ----

  lemma PolynomialIs(n: nat, number: nat, reflect: bool, p: bv64)
    requires 8 <= n <= 64 && number < Arith.Pow2(n) && Spelled(p, number, n, 0)
    ensures Poly(Details(n, FromNat(number, 64), reflect)) == TopBits(p, n) && Aligned(p, n)
  {
    hide FromNat, TopBits, Ups;
    FromNatWide(number, n, 64);
    TopBitsSplit(p, n, 0);
    assert Low(FromNat(number, 64), n) == FromNat(number, n);
  }

  /** The polynomial of a variant, aligned. */
  function PolynomialBitsOf(d: Details): bv64 {
    if d.bits == 64 then 0x42F0_E1EB_A9EA_3693
    else if d.bits == 32 then 0x4C1_1DB7_0000_0000
    else if d.bits == 24 then 0x864C_FB00_0000_0000
    else if d.bits == 16 then 0x1021_0000_0000_0000
    else 0x700_0000_0000_0000
  }

  lemma Spelled64()
    ensures Spelled(0x42F0_E1EB_A9EA_3693, 0x42F0_E1EB_A9EA_3693, 64, 0)
  {
    hide Spelled, FromNat, TopBits;
    SpelledNothing(0x42F0_E1EB_A9EA_3693);
    SpellOn(0x42F0_E1EB_A9EA_3693, 0x0, 0, 0x42F0_E1EB_A9EA_3693, 0x4, 0x2);
    SpellOn(0x42F0_E1EB_A9EA_3693, 0x42, 8, 0xF0E1_EBA9_EA36_9300, 0xF, 0x0);
    SpellOn(0x42F0_E1EB_A9EA_3693, 0x42F0, 16, 0xE1EB_A9EA_3693_0000, 0xE, 0x1);
    SpellOn(0x42F0_E1EB_A9EA_3693, 0x42F0E1, 24, 0xEBA9_EA36_9300_0000, 0xE, 0xB);
    SpellOn(0x42F0_E1EB_A9EA_3693, 0x42F0E1EB, 32, 0xA9EA_3693_0000_0000, 0xA, 0x9);
    SpellOn(0x42F0_E1EB_A9EA_3693, 0x42_F0E1_EBA9, 40, 0xEA36_9300_0000_0000, 0xE, 0xA);
    SpellOn(0x42F0_E1EB_A9EA_3693, 0x42F0_E1EB_A9EA, 48, 0x3693_0000_0000_0000, 0x3, 0x6);
    SpellOn(0x42F0_E1EB_A9EA_3693, 0x42_F0E1_EBA9_EA36, 56, 0x9300_0000_0000_0000, 0x9, 0x3);
  }

  lemma Polynomial64()
    ensures Poly(CRC64) == TopBits(0x42F0_E1EB_A9EA_3693, 64) && Aligned(0x42F0_E1EB_A9EA_3693, 64)
  {
    hide Spelled, FromNat, TopBits, Poly, Aligned;
    Arith.PowersOfTwo();
    Spelled64();
    PolynomialIs(64, 0x42F0_E1EB_A9EA_3693, false, 0x42F0_E1EB_A9EA_3693);
  }

  lemma Spelled32()
    ensures Spelled(0x4C1_1DB7_0000_0000, 0x4C11DB7, 32, 0)
  {
    hide Spelled, FromNat, TopBits;
    SpelledNothing(0x4C1_1DB7_0000_0000);
    SpellOn(0x4C1_1DB7_0000_0000, 0x0, 0, 0x4C1_1DB7_0000_0000, 0x0, 0x4);
    SpellOn(0x4C1_1DB7_0000_0000, 0x4, 8, 0xC11D_B700_0000_0000, 0xC, 0x1);
    SpellOn(0x4C1_1DB7_0000_0000, 0x4C1, 16, 0x1DB7_0000_0000_0000, 0x1, 0xD);
    SpellOn(0x4C1_1DB7_0000_0000, 0x4C11D, 24, 0xB700_0000_0000_0000, 0xB, 0x7);
  }

  lemma Polynomial32()
    ensures Poly(CRC32) == TopBits(0x4C1_1DB7_0000_0000, 32) && Aligned(0x4C1_1DB7_0000_0000, 32)
  {
    hide Spelled, FromNat, TopBits, Poly, Aligned;
    Arith.PowersOfTwo();
    Spelled32();
    PolynomialIs(32, 0x4C11DB7, true, 0x4C1_1DB7_0000_0000);
  }

  lemma Spelled24()
    ensures Spelled(0x864C_FB00_0000_0000, 0x864CFB, 24, 0)
  {
    hide Spelled, FromNat, TopBits;
    SpelledNothing(0x864C_FB00_0000_0000);
    SpellOn(0x864C_FB00_0000_0000, 0x0, 0, 0x864C_FB00_0000_0000, 0x8, 0x6);
    SpellOn(0x864C_FB00_0000_0000, 0x86, 8, 0x4CFB_0000_0000_0000, 0x4, 0xC);
    SpellOn(0x864C_FB00_0000_0000, 0x864C, 16, 0xFB00_0000_0000_0000, 0xF, 0xB);
  }

  lemma Polynomial24()
    ensures Poly(CRC24) == TopBits(0x864C_FB00_0000_0000, 24) && Aligned(0x864C_FB00_0000_0000, 24)
  {
    hide Spelled, FromNat, TopBits, Poly, Aligned;
    Arith.PowersOfTwo();
    Spelled24();
    PolynomialIs(24, 0x864CFB, false, 0x864C_FB00_0000_0000);
  }

  lemma Spelled16()
    ensures Spelled(0x1021_0000_0000_0000, 0x1021, 16, 0)
  {
    hide Spelled, FromNat, TopBits;
    SpelledNothing(0x1021_0000_0000_0000);
    SpellOn(0x1021_0000_0000_0000, 0x0, 0, 0x1021_0000_0000_0000, 0x1, 0x0);
    SpellOn(0x1021_0000_0000_0000, 0x10, 8, 0x2100_0000_0000_0000, 0x2, 0x1);
  }

  lemma Polynomial16()
    ensures Poly(CRC16) == TopBits(0x1021_0000_0000_0000, 16) && Aligned(0x1021_0000_0000_0000, 16)
  {
    hide Spelled, FromNat, TopBits, Poly, Aligned;
    Arith.PowersOfTwo();
    Spelled16();
    PolynomialIs(16, 0x1021, true, 0x1021_0000_0000_0000);
  }

  lemma Spelled8()
    ensures Spelled(0x700_0000_0000_0000, 0x7, 8, 0)
  {
    hide Spelled, FromNat, TopBits;
    SpelledNothing(0x700_0000_0000_0000);
    SpellOn(0x700_0000_0000_0000, 0x0, 0, 0x700_0000_0000_0000, 0x0, 0x7);
  }

  lemma Polynomial8()
    ensures Poly(CRC8) == TopBits(0x700_0000_0000_0000, 8) && Aligned(0x700_0000_0000_0000, 8)
  {
    hide Spelled, FromNat, TopBits, Poly, Aligned;
    Arith.PowersOfTwo();
    Spelled8();
    PolynomialIs(8, 0x7, false, 0x700_0000_0000_0000);
  }

  lemma PolynomialsAre(d: Details)
    requires d in {CRC64, CRC32, CRC24, CRC16, CRC8}
    ensures Fits(d) && Poly(d) == TopBits(PolynomialBitsOf(d), d.bits) && Aligned(PolynomialBitsOf(d), d.bits)
  {
    hide FromNat, TopBits, Poly, Aligned;
    Polynomial64();
    Polynomial32();
    Polynomial24();
    Polynomial16();
    Polynomial8();
  }

  // ---- "abcdefg" ----

  /** A character. */
  function Letter(c: nat): Octet {
    FromNat(c, 8)
  }

  const ABCDEFG: seq<Octet> :=
    [Letter(0x61), Letter(0x62), Letter(0x63), Letter(0x64), Letter(0x65), Letter(0x66), Letter(0x67)]

  /** After the message `m` the register, aligned, is `s`. */
  ghost predicate Fed(d: Details, m: seq<Octet>, s: bv64) {
    && Fits(d)
    && Feed(Poly(d), Ones(d.bits), Stream(d, m)) == TopBits(s, d.bits)
    && Aligned(s, d.bits)
  }

  lemma FedNothing(d: Details)
    requires d in {CRC64, CRC32, CRC24, CRC16, CRC8}
    ensures Fed(d, [], AllOnes(d.bits))
  {
    hide FromNat, TopBits, Poly, Aligned, AllOnes, Feed;
    PolynomialsAre(d);
    AllOnesAre(d.bits);
    FeedNothing(Poly(d), Ones(d.bits));
  }

  /** One more byte, which stands in the top bits of `x` in the order of the variant. */
  lemma FedOn(d: Details, m: seq<Octet>, s: bv64, c: Octet, x: bv64)
    requires d in {CRC64, CRC32, CRC24, CRC16, CRC8}
    requires Fed(d, m, s) && TopBits(x, 8) == Register(d, c) && Aligned(x, 8)
    ensures Fed(d, m + [c], ByteOf(PolynomialBitsOf(d), s, x))
  {
    hide FromNat, TopBits, Poly, Aligned, Feed, Register, ByteOf, PolynomialBitsOf;
    PolynomialsAre(d);
    ByteIs(PolynomialBitsOf(d), s, x, d.bits);
    FeedConcat(Poly(d), Ones(d.bits), Stream(d, m), Register(d, c));
    StreamOn(d, m, c);
  }

  lemma StreamOn(d: Details, m: seq<Octet>, c: Octet)
    ensures Stream(d, m + [c]) == Stream(d, m) + Register(d, c)
  {
    assert (m + [c])[..|m|] == m;
  }

  lemma PlainLetter(x: bv64, high: nat, low: nat)
    requires Shows(x, high, low) && x << 8 == 0 && high < 0x10 && low < 0x10
    ensures TopBits(x, 8) == FromNat(high * 0x10 + low, 8) && Aligned(x, 8)
  {
    hide Shows, TopBits, Ups, FromNat;
    SpelledNothing(x);
    SpellOn(x, 0, 0, x, high, low);
    TopBitsSplit(x, 8, 0);
  }

  /** The letters' bits, highest first. */
  lemma PlainLetters()
    ensures TopBits(0x6100_0000_0000_0000, 8) == Letter(0x61) && Aligned(0x6100_0000_0000_0000, 8)
    ensures TopBits(0x6200_0000_0000_0000, 8) == Letter(0x62) && Aligned(0x6200_0000_0000_0000, 8)
    ensures TopBits(0x6300_0000_0000_0000, 8) == Letter(0x63) && Aligned(0x6300_0000_0000_0000, 8)
    ensures TopBits(0x6400_0000_0000_0000, 8) == Letter(0x64) && Aligned(0x6400_0000_0000_0000, 8)
    ensures TopBits(0x6500_0000_0000_0000, 8) == Letter(0x65) && Aligned(0x6500_0000_0000_0000, 8)
    ensures TopBits(0x6600_0000_0000_0000, 8) == Letter(0x66) && Aligned(0x6600_0000_0000_0000, 8)
    ensures TopBits(0x6700_0000_0000_0000, 8) == Letter(0x67) && Aligned(0x6700_0000_0000_0000, 8)
  {
    hide FromNat, TopBits, Aligned, Ups;
    PlainLetter(0x6100_0000_0000_0000, 0x6, 0x1);
    PlainLetter(0x6200_0000_0000_0000, 0x6, 0x2);
    PlainLetter(0x6300_0000_0000_0000, 0x6, 0x3);
    PlainLetter(0x6400_0000_0000_0000, 0x6, 0x4);
    PlainLetter(0x6500_0000_0000_0000, 0x6, 0x5);
    PlainLetter(0x6600_0000_0000_0000, 0x6, 0x6);
    PlainLetter(0x6700_0000_0000_0000, 0x6, 0x7);
  }

  /** The letters' bits, lowest first. */
  lemma MirroredLetters()
    ensures TopBits(0x8600_0000_0000_0000, 8) == Reverse(Letter(0x61)) && Aligned(0x8600_0000_0000_0000, 8)
    ensures TopBits(0x4600_0000_0000_0000, 8) == Reverse(Letter(0x62)) && Aligned(0x4600_0000_0000_0000, 8)
    ensures TopBits(0xC600_0000_0000_0000, 8) == Reverse(Letter(0x63)) && Aligned(0xC600_0000_0000_0000, 8)
    ensures TopBits(0x2600_0000_0000_0000, 8) == Reverse(Letter(0x64)) && Aligned(0x2600_0000_0000_0000, 8)
    ensures TopBits(0xA600_0000_0000_0000, 8) == Reverse(Letter(0x65)) && Aligned(0xA600_0000_0000_0000, 8)
    ensures TopBits(0x6600_0000_0000_0000, 8) == Reverse(Letter(0x66)) && Aligned(0x6600_0000_0000_0000, 8)
    ensures TopBits(0xE600_0000_0000_0000, 8) == Reverse(Letter(0x67)) && Aligned(0xE600_0000_0000_0000, 8)
  {
    hide FromNat, TopBits, Aligned, Reverse;
    MirroredNothing();
    MirrorOn(0, 0, 0, 0x8600_0000_0000_0000, 0x6, 0x1);
    MirrorOn(0, 0, 0, 0x4600_0000_0000_0000, 0x6, 0x2);
    MirrorOn(0, 0, 0, 0xC600_0000_0000_0000, 0x6, 0x3);
    MirrorOn(0, 0, 0, 0x2600_0000_0000_0000, 0x6, 0x4);
    MirrorOn(0, 0, 0, 0xA600_0000_0000_0000, 0x6, 0x5);
    MirrorOn(0, 0, 0, 0x6600_0000_0000_0000, 0x6, 0x6);
    MirrorOn(0, 0, 0, 0xE600_0000_0000_0000, 0x6, 0x7);
  }

  /** The finished checksum from the register, complemented. */
  lemma Finished(d: Details, m: seq<Octet>, s: bv64)
    requires d in {CRC64, CRC32, CRC24, CRC16, CRC8} && Fed(d, m, s)
    ensures Checksum(d, m) == Register(d, TopBits(Sum(s, AllOnes(d.bits)), d.bits))
  {
    hide FromNat, TopBits, Poly, Aligned, AllOnes, Feed, Sum;
    AllOnesAre(d.bits);
    BitsOfXor(s, AllOnes(d.bits), d.bits);
    MirrorOnes(d.bits);
    ReverseXor(TopBits(s, d.bits), Ones(d.bits));
  }

  lemma MirrorOnes(n: nat)
    ensures Reverse(Ones(n)) == Ones(n)
  {
  }

  lemma Registers64()
    ensures PolynomialBitsOf(CRC64) == 0x42F0_E1EB_A9EA_3693 && AllOnes(CRC64.bits) == 0xFFFF_FFFF_FFFF_FFFF
    ensures ByteOf(0x42F0_E1EB_A9EA_3693, 0xFFFF_FFFF_FFFF_FFFF, 0x6100_0000_0000_0000) == 0x318C_0BD8_533F_5665
    ensures ByteOf(0x42F0_E1EB_A9EA_3693, 0x318C_0BD8_533F_5665, 0x6200_0000_0000_0000) == 0xF722_8085_BFE5_9A75
    ensures ByteOf(0x42F0_E1EB_A9EA_3693, 0xF722_8085_BFE5_9A75, 0x6300_0000_0000_0000) == 0xFB74_7EC5_060B_68FD
    ensures ByteOf(0x42F0_E1EB_A9EA_3693, 0xFB74_7EC5_060B_68FD, 0x6400_0000_0000_0000) == 0xF8FD_D0CA_0E42_62F6
    ensures ByteOf(0x42F0_E1EB_A9EA_3693, 0xF8FD_D0CA_0E42_62F6, 0x6500_0000_0000_0000) == 0xF4B2_1C15_149C_04D0
    ensures ByteOf(0x42F0_E1EB_A9EA_3693, 0xF4B2_1C15_149C_04D0, 0x6600_0000_0000_0000) == 0xA73A_4BFC_2203_4C04
    ensures ByteOf(0x42F0_E1EB_A9EA_3693, 0xA73A_4BFC_2203_4C04, 0x6700_0000_0000_0000) == 0x16B4_1BF7_9412_51E2
  {
    hide FromNat;
  }

  /** `clod_crc64("abcdefg", 7)` */
  lemma Crc64OfAbcdefg()
    ensures Checksum(CRC64, ABCDEFG) == FromNat(0xE94B_E408_6BED_AE1D, 64)
  {
    hide FromNat, TopBits, Poly, Aligned, Fed, Checksum, Stream, Letter, Reverse, ByteOf, PolynomialBitsOf, AllOnes;
    PlainLetters();
    Registers64();
    FedNothing(CRC64);
    var m: seq<Octet> := [];
    FedOn(CRC64, m, 0xFFFF_FFFF_FFFF_FFFF, Letter(0x61), 0x6100_0000_0000_0000);
    m := m + [Letter(0x61)];
    FedOn(CRC64, m, 0x318C_0BD8_533F_5665, Letter(0x62), 0x6200_0000_0000_0000);
    m := m + [Letter(0x62)];
    FedOn(CRC64, m, 0xF722_8085_BFE5_9A75, Letter(0x63), 0x6300_0000_0000_0000);
    m := m + [Letter(0x63)];
    FedOn(CRC64, m, 0xFB74_7EC5_060B_68FD, Letter(0x64), 0x6400_0000_0000_0000);
    m := m + [Letter(0x64)];
    FedOn(CRC64, m, 0xF8FD_D0CA_0E42_62F6, Letter(0x65), 0x6500_0000_0000_0000);
    m := m + [Letter(0x65)];
    FedOn(CRC64, m, 0xF4B2_1C15_149C_04D0, Letter(0x66), 0x6600_0000_0000_0000);
    m := m + [Letter(0x66)];
    FedOn(CRC64, m, 0xA73A_4BFC_2203_4C04, Letter(0x67), 0x6700_0000_0000_0000);
    m := m + [Letter(0x67)];
    assert m == ABCDEFG;
    Finished(CRC64, ABCDEFG, 0x16B4_1BF7_9412_51E2);
    Finish64();
  }

  lemma Finish64()
    ensures TopBits(0xE94B_E408_6BED_AE1D, 64) == FromNat(0xE94B_E408_6BED_AE1D, 64)
  {
    hide FromNat, TopBits, Aligned, Spelled;
    SpelledNothing(0xE94B_E408_6BED_AE1D);
    SpellOn(0xE94B_E408_6BED_AE1D, 0x0, 0, 0xE94B_E408_6BED_AE1D, 0xE, 0x9);
    SpellOn(0xE94B_E408_6BED_AE1D, 0xE9, 8, 0x4BE4_086B_EDAE_1D00, 0x4, 0xB);
    SpellOn(0xE94B_E408_6BED_AE1D, 0xE94B, 16, 0xE408_6BED_AE1D_0000, 0xE, 0x4);
    SpellOn(0xE94B_E408_6BED_AE1D, 0xE94BE4, 24, 0x86B_EDAE_1D00_0000, 0x0, 0x8);
    SpellOn(0xE94B_E408_6BED_AE1D, 0xE94BE408, 32, 0x6BED_AE1D_0000_0000, 0x6, 0xB);
    SpellOn(0xE94B_E408_6BED_AE1D, 0xE9_4BE4_086B, 40, 0xEDAE_1D00_0000_0000, 0xE, 0xD);
    SpellOn(0xE94B_E408_6BED_AE1D, 0xE94B_E408_6BED, 48, 0xAE1D_0000_0000_0000, 0xA, 0xE);
    SpellOn(0xE94B_E408_6BED_AE1D, 0xE9_4BE4_086B_EDAE, 56, 0x1D00_0000_0000_0000, 0x1, 0xD);
    Spells(0xE94B_E408_6BED_AE1D, 0xE94B_E408_6BED_AE1D, 64, 0);
  }

  lemma Registers32()
    ensures PolynomialBitsOf(CRC32) == 0x4C1_1DB7_0000_0000 && AllOnes(CRC32.bits) == 0xFFFF_FFFF_0000_0000
    ensures ByteOf(0x4C1_1DB7_0000_0000, 0xFFFF_FFFF_0000_0000, 0x8600_0000_0000_0000) == 0x3D82_12E8_0000_0000
    ensures ByteOf(0x4C1_1DB7_0000_0000, 0x3D82_12E8_0000_0000, 0x4600_0000_0000_0000) == 0x49ED_3E86_0000_0000
    ensures ByteOf(0x4C1_1DB7_0000_0000, 0x49ED_3E86_0000_0000, 0xC600_0000_0000_0000) == 0xBC7D_DB53_0000_0000
    ensures ByteOf(0x4C1_1DB7_0000_0000, 0xBC7D_DB53_0000_0000, 0x2600_0000_0000_0000) == 0x774C_BE48_0000_0000
    ensures ByteOf(0x4C1_1DB7_0000_0000, 0x774C_BE48_0000_0000, 0xA600_0000_0000_0000) == 0x59E4_1E5E_0000_0000
    ensures ByteOf(0x4C1_1DB7_0000_0000, 0x59E4_1E5E_0000_0000, 0x6600_0000_0000_0000) == 0x863_8E2D_0000_0000
    ensures ByteOf(0x4C1_1DB7_0000_0000, 0x863_8E2D_0000_0000, 0xE600_0000_0000_0000) == 0x9AA9_AB73_0000_0000
  {
    hide FromNat;
  }

  /** `clod_crc32("abcdefg", 7)` */
  lemma Crc32OfAbcdefg()
    ensures Checksum(CRC32, ABCDEFG) == FromNat(0x312A6AA6, 32)
  {
    hide FromNat, TopBits, Poly, Aligned, Fed, Checksum, Stream, Letter, Reverse, ByteOf, PolynomialBitsOf, AllOnes;
    MirroredLetters();
    Registers32();
    FedNothing(CRC32);
    var m: seq<Octet> := [];
    FedOn(CRC32, m, 0xFFFF_FFFF_0000_0000, Letter(0x61), 0x8600_0000_0000_0000);
    m := m + [Letter(0x61)];
    FedOn(CRC32, m, 0x3D82_12E8_0000_0000, Letter(0x62), 0x4600_0000_0000_0000);
    m := m + [Letter(0x62)];
    FedOn(CRC32, m, 0x49ED_3E86_0000_0000, Letter(0x63), 0xC600_0000_0000_0000);
    m := m + [Letter(0x63)];
    FedOn(CRC32, m, 0xBC7D_DB53_0000_0000, Letter(0x64), 0x2600_0000_0000_0000);
    m := m + [Letter(0x64)];
    FedOn(CRC32, m, 0x774C_BE48_0000_0000, Letter(0x65), 0xA600_0000_0000_0000);
    m := m + [Letter(0x65)];
    FedOn(CRC32, m, 0x59E4_1E5E_0000_0000, Letter(0x66), 0x6600_0000_0000_0000);
    m := m + [Letter(0x66)];
    FedOn(CRC32, m, 0x863_8E2D_0000_0000, Letter(0x67), 0xE600_0000_0000_0000);
    m := m + [Letter(0x67)];
    assert m == ABCDEFG;
    Finished(CRC32, ABCDEFG, 0x9AA9_AB73_0000_0000);
    Finish32();
  }

  lemma Finish32()
    ensures Reverse(TopBits(0x6556_548C_0000_0000, 32)) == FromNat(0x312A6AA6, 32)
  {
    hide FromNat, TopBits, Aligned, Reverse;
    MirroredNothing();
    MirrorOn(0x0, 0x0, 0, 0x8C00_0000_0000_0000, 0x3, 0x1);
    MirrorOn(0x8C00_0000_0000_0000, 0x31, 8, 0x548C_0000_0000_0000, 0x2, 0xA);
    MirrorOn(0x548C_0000_0000_0000, 0x312A, 16, 0x5654_8C00_0000_0000, 0x6, 0xA);
    MirrorOn(0x5654_8C00_0000_0000, 0x312A6A, 24, 0x6556_548C_0000_0000, 0xA, 0x6);
    ReverseTwice(FromNat(0x312A6AA6, 32));
  }

  lemma Registers24()
    ensures PolynomialBitsOf(CRC24) == 0x864C_FB00_0000_0000 && AllOnes(CRC24.bits) == 0xFFFF_FF00_0000_0000
    ensures ByteOf(0x864C_FB00_0000_0000, 0xFFFF_FF00_0000_0000, 0x6100_0000_0000_0000) == 0xB144_F800_0000_0000
    ensures ByteOf(0x864C_FB00_0000_0000, 0xB144_F800_0000_0000, 0x6200_0000_0000_0000) == 0xA7CB_0900_0000_0000
    ensures ByteOf(0x864C_FB00_0000_0000, 0xA7CB_0900_0000_0000, 0x6300_0000_0000_0000) == 0x720B_9700_0000_0000
    ensures ByteOf(0x864C_FB00_0000_0000, 0x720B_9700_0000_0000, 0x6400_0000_0000_0000) == 0xD7EA_6500_0000_0000
    ensures ByteOf(0x864C_FB00_0000_0000, 0xD7EA_6500_0000_0000, 0x6500_0000_0000_0000) == 0x9A68_C900_0000_0000
    ensures ByteOf(0x864C_FB00_0000_0000, 0x9A68_C900_0000_0000, 0x6600_0000_0000_0000) == 0xB9D5_CE00_0000_0000
    ensures ByteOf(0x864C_FB00_0000_0000, 0xB9D5_CE00_0000_0000, 0x6700_0000_0000_0000) == 0x82D6_2A00_0000_0000
  {
    hide FromNat;
  }

  /** `clod_crc24("abcdefg", 7)` */
  lemma Crc24OfAbcdefg()
    ensures Checksum(CRC24, ABCDEFG) == FromNat(0x7D29D5, 24)
  {
    hide FromNat, TopBits, Poly, Aligned, Fed, Checksum, Stream, Letter, Reverse, ByteOf, PolynomialBitsOf, AllOnes;
    PlainLetters();
    Registers24();
    FedNothing(CRC24);
    var m: seq<Octet> := [];
    FedOn(CRC24, m, 0xFFFF_FF00_0000_0000, Letter(0x61), 0x6100_0000_0000_0000);
    m := m + [Letter(0x61)];
    FedOn(CRC24, m, 0xB144_F800_0000_0000, Letter(0x62), 0x6200_0000_0000_0000);
    m := m + [Letter(0x62)];
    FedOn(CRC24, m, 0xA7CB_0900_0000_0000, Letter(0x63), 0x6300_0000_0000_0000);
    m := m + [Letter(0x63)];
    FedOn(CRC24, m, 0x720B_9700_0000_0000, Letter(0x64), 0x6400_0000_0000_0000);
    m := m + [Letter(0x64)];
    FedOn(CRC24, m, 0xD7EA_6500_0000_0000, Letter(0x65), 0x6500_0000_0000_0000);
    m := m + [Letter(0x65)];
    FedOn(CRC24, m, 0x9A68_C900_0000_0000, Letter(0x66), 0x6600_0000_0000_0000);
    m := m + [Letter(0x66)];
    FedOn(CRC24, m, 0xB9D5_CE00_0000_0000, Letter(0x67), 0x6700_0000_0000_0000);
    m := m + [Letter(0x67)];
    assert m == ABCDEFG;
    Finished(CRC24, ABCDEFG, 0x82D6_2A00_0000_0000);
    Finish24();
  }

  lemma Finish24()
    ensures TopBits(0x7D29_D500_0000_0000, 24) == FromNat(0x7D29D5, 24)
  {
    hide FromNat, TopBits, Aligned, Spelled;
    SpelledNothing(0x7D29_D500_0000_0000);
    SpellOn(0x7D29_D500_0000_0000, 0x0, 0, 0x7D29_D500_0000_0000, 0x7, 0xD);
    SpellOn(0x7D29_D500_0000_0000, 0x7D, 8, 0x29D5_0000_0000_0000, 0x2, 0x9);
    SpellOn(0x7D29_D500_0000_0000, 0x7D29, 16, 0xD500_0000_0000_0000, 0xD, 0x5);
    Spells(0x7D29_D500_0000_0000, 0x7D29D5, 24, 0);
  }

  lemma Registers16()
    ensures PolynomialBitsOf(CRC16) == 0x1021_0000_0000_0000 && AllOnes(CRC16.bits) == 0xFFFF_0000_0000_0000
    ensures ByteOf(0x1021_0000_0000_0000, 0xFFFF_0000_0000_0000, 0x8600_0000_0000_0000) == 0x10BE_0000_0000_0000
    ensures ByteOf(0x1021_0000_0000_0000, 0x10BE_0000_0000_0000, 0x4600_0000_0000_0000) == 0x8433_0000_0000_0000
    ensures ByteOf(0x1021_0000_0000_0000, 0x8433_0000_0000_0000, 0xC600_0000_0000_0000) == 0x5B86_0000_0000_0000
    ensures ByteOf(0x1021_0000_0000_0000, 0x5B86_0000_0000_0000, 0x2600_0000_0000_0000) == 0x293A_0000_0000_0000
    ensures ByteOf(0x1021_0000_0000_0000, 0x293A_0000_0000_0000, 0xA600_0000_0000_0000) == 0x5A67_0000_0000_0000
    ensures ByteOf(0x1021_0000_0000_0000, 0x5A67_0000_0000_0000, 0x6600_0000_0000_0000) == 0x90DF_0000_0000_0000
    ensures ByteOf(0x1021_0000_0000_0000, 0x90DF_0000_0000_0000, 0xE600_0000_0000_0000) == 0xC151_0000_0000_0000
  {
    hide FromNat;
  }

  /** `clod_crc16("abcdefg", 7)` */
  lemma Crc16OfAbcdefg()
    ensures Checksum(CRC16, ABCDEFG) == FromNat(0x757C, 16)
  {
    hide FromNat, TopBits, Poly, Aligned, Fed, Checksum, Stream, Letter, Reverse, ByteOf, PolynomialBitsOf, AllOnes;
    MirroredLetters();
    Registers16();
    FedNothing(CRC16);
    var m: seq<Octet> := [];
    FedOn(CRC16, m, 0xFFFF_0000_0000_0000, Letter(0x61), 0x8600_0000_0000_0000);
    m := m + [Letter(0x61)];
    FedOn(CRC16, m, 0x10BE_0000_0000_0000, Letter(0x62), 0x4600_0000_0000_0000);
    m := m + [Letter(0x62)];
    FedOn(CRC16, m, 0x8433_0000_0000_0000, Letter(0x63), 0xC600_0000_0000_0000);
    m := m + [Letter(0x63)];
    FedOn(CRC16, m, 0x5B86_0000_0000_0000, Letter(0x64), 0x2600_0000_0000_0000);
    m := m + [Letter(0x64)];
    FedOn(CRC16, m, 0x293A_0000_0000_0000, Letter(0x65), 0xA600_0000_0000_0000);
    m := m + [Letter(0x65)];
    FedOn(CRC16, m, 0x5A67_0000_0000_0000, Letter(0x66), 0x6600_0000_0000_0000);
    m := m + [Letter(0x66)];
    FedOn(CRC16, m, 0x90DF_0000_0000_0000, Letter(0x67), 0xE600_0000_0000_0000);
    m := m + [Letter(0x67)];
    assert m == ABCDEFG;
    Finished(CRC16, ABCDEFG, 0xC151_0000_0000_0000);
    Finish16();
  }

  lemma Finish16()
    ensures Reverse(TopBits(0x3EAE_0000_0000_0000, 16)) == FromNat(0x757C, 16)
  {
    hide FromNat, TopBits, Aligned, Reverse;
    MirroredNothing();
    MirrorOn(0x0, 0x0, 0, 0xAE00_0000_0000_0000, 0x7, 0x5);
    MirrorOn(0xAE00_0000_0000_0000, 0x75, 8, 0x3EAE_0000_0000_0000, 0x7, 0xC);
    ReverseTwice(FromNat(0x757C, 16));
  }

  lemma Registers8()
    ensures PolynomialBitsOf(CRC8) == 0x700_0000_0000_0000 && AllOnes(CRC8.bits) == 0xFF00_0000_0000_0000
    ensures ByteOf(0x700_0000_0000_0000, 0xFF00_0000_0000_0000, 0x6100_0000_0000_0000) == 0xD300_0000_0000_0000
    ensures ByteOf(0x700_0000_0000_0000, 0xD300_0000_0000_0000, 0x6200_0000_0000_0000) == 0x1E00_0000_0000_0000
    ensures ByteOf(0x700_0000_0000_0000, 0x1E00_0000_0000_0000, 0x6300_0000_0000_0000) == 0x7400_0000_0000_0000
    ensures ByteOf(0x700_0000_0000_0000, 0x7400_0000_0000_0000, 0x6400_0000_0000_0000) == 0x7000_0000_0000_0000
    ensures ByteOf(0x700_0000_0000_0000, 0x7000_0000_0000_0000, 0x6500_0000_0000_0000) == 0x6B00_0000_0000_0000
    ensures ByteOf(0x700_0000_0000_0000, 0x6B00_0000_0000_0000, 0x6600_0000_0000_0000) == 0x2300_0000_0000_0000
    ensures ByteOf(0x700_0000_0000_0000, 0x2300_0000_0000_0000, 0x6700_0000_0000_0000) == 0xDB00_0000_0000_0000
  {
    hide FromNat;
  }

  /** `clod_crc8("abcdefg", 7)` */
  lemma Crc8OfAbcdefg()
    ensures Checksum(CRC8, ABCDEFG) == FromNat(0x24, 8)
  {
    hide FromNat, TopBits, Poly, Aligned, Fed, Checksum, Stream, Letter, Reverse, ByteOf, PolynomialBitsOf, AllOnes;
    PlainLetters();
    Registers8();
    FedNothing(CRC8);
    var m: seq<Octet> := [];
    FedOn(CRC8, m, 0xFF00_0000_0000_0000, Letter(0x61), 0x6100_0000_0000_0000);
    m := m + [Letter(0x61)];
    FedOn(CRC8, m, 0xD300_0000_0000_0000, Letter(0x62), 0x6200_0000_0000_0000);
    m := m + [Letter(0x62)];
    FedOn(CRC8, m, 0x1E00_0000_0000_0000, Letter(0x63), 0x6300_0000_0000_0000);
    m := m + [Letter(0x63)];
    FedOn(CRC8, m, 0x7400_0000_0000_0000, Letter(0x64), 0x6400_0000_0000_0000);
    m := m + [Letter(0x64)];
    FedOn(CRC8, m, 0x7000_0000_0000_0000, Letter(0x65), 0x6500_0000_0000_0000);
    m := m + [Letter(0x65)];
    FedOn(CRC8, m, 0x6B00_0000_0000_0000, Letter(0x66), 0x6600_0000_0000_0000);
    m := m + [Letter(0x66)];
    FedOn(CRC8, m, 0x2300_0000_0000_0000, Letter(0x67), 0x6700_0000_0000_0000);
    m := m + [Letter(0x67)];
    assert m == ABCDEFG;
    Finished(CRC8, ABCDEFG, 0xDB00_0000_0000_0000);
    Finish8();
  }

  lemma Finish8()
    ensures TopBits(0x2400_0000_0000_0000, 8) == FromNat(0x24, 8)
  {
    hide FromNat, TopBits, Aligned, Spelled;
    SpelledNothing(0x2400_0000_0000_0000);
    SpellOn(0x2400_0000_0000_0000, 0x0, 0, 0x2400_0000_0000_0000, 0x2, 0x4);
    Spells(0x2400_0000_0000_0000, 0x24, 8, 0);
  }

  lemma Spells(b: bv64, number: nat, k: nat, rest: bv64)
    requires Spelled(b, number, k, rest)
    ensures TopBits(b, k) == FromNat(number, k)
  {
  }

  // ---- a zero byte in front ----

  /** A zero byte moves the start value. */
  lemma ZeroMoves(d: Details)
    requires d in {CRC64, CRC32, CRC24, CRC16, CRC8}
    ensures ByteOf(PolynomialBitsOf(d), AllOnes(d.bits), 0) != AllOnes(d.bits)
  {
    hide FromNat;
  }

  /** A zero byte in front of a message changes its checksum, in every variant and for every message; so
      the length of a row of zero bytes is not lost. */
  lemma ZeroInFrontDetected(d: Details, m: seq<Octet>)
    requires d in {CRC64, CRC32, CRC24, CRC16, CRC8}
    ensures Fits(d) && Checksum(d, [Zero(8)] + m) != Checksum(d, m)
  {
    hide FromNat, TopBits, Poly, Aligned, AllOnes, Feed, ByteOf, PolynomialBitsOf, Stream, Odd, Register;
    VariantsAreOdd(d);
    var (g, ones, zero) := (Poly(d), Ones(d.bits), [Zero(8)]);
    FedNothing(d);
    BitsOfZero(0, 8);
    MirrorZero(d);
    FedOn(d, [], AllOnes(d.bits), Zero(8), 0);
    assert [] + zero == zero;
    ZeroMoves(d);
    AllOnesAre(d.bits);
    var after := ByteOf(PolynomialBitsOf(d), AllOnes(d.bits), 0);
    if TopBits(after, d.bits) == ones {
      SameTopBits(after, AllOnes(d.bits), d.bits);
    }
    StreamConcat(d, zero, m);
    FeedConcat(g, ones, Stream(d, zero), Stream(d, m));
    if Checksum(d, zero + m) == Checksum(d, m) {
      SameChecksum(d, zero + m, m);
      FeedInjective(g, Feed(g, ones, Stream(d, zero)), ones, Stream(d, m));
    }
  }

  lemma MirrorZero(d: Details)
    ensures Register(d, Zero(8)) == Zero(8)
  {
  }

  lemma SameChecksum(d: Details, a: seq<Octet>, b: seq<Octet>)
    requires Fits(d) && Checksum(d, a) == Checksum(d, b)
    ensures Feed(Poly(d), Ones(d.bits), Stream(d, a)) == Feed(Poly(d), Ones(d.bits), Stream(d, b))
  {
    hide Poly, Feed, Stream;
    var ones := Ones(d.bits);
    MirrorOnes(d.bits);
    XorCancels(Loops.Crc(d, ones, a), Loops.Crc(d, ones, b), ones);
    RegisterInjective(d, Feed(Poly(d), ones, Stream(d, a)), Feed(Poly(d), ones, Stream(d, b)));
  }
}
