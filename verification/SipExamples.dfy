/** What the bytes of a block contribute to the hash, and literal values of its parts. */
module SipExamples {
  import opened SipMix
  import opened SipSpec

  // ---- a word is its bytes, lowest first ----

  function Down(w: bv64): bv64 {
    w >> 8
  }

  function LowByte(w: bv64): bv8 {
    (w & 0xFF) as bv8
  }

  /** Byte `i` of a word: the eight bits from bit `8 * i` on. */
  function ByteAt(w: bv64, i: nat): bv8
    decreases i
  {
    if i == 0 then LowByte(w) else ByteAt(Down(w), i - 1)
  }

  /** No bit is set from byte `n` on. */
  predicate Below(w: bv64, n: nat)
    decreases n
  {
    if n == 0 then w == 0 else Below(Down(w), n - 1)
  }

  lemma JoinedByte(x: bv8, w: bv64)
    requires w >> 56 == 0
    ensures LowByte(Or(x as bv64, Up(w))) == x && Down(Or(x as bv64, Up(w))) == w
  {
  }

  lemma {:induction false} BelowMore(w: bv64, n: nat)
    requires Below(w, n)
    ensures Below(w, n + 1)
    decreases n
  {
    if n == 0 {
      DownZero();
    } else {
      hide Down;
      BelowMore(Down(w), n - 1);
    }
  }

  lemma DownZero()
    ensures Down(0) == 0
  {
  }

  lemma {:induction false} BelowSeven(w: bv64, n: nat)
    requires Below(w, n) && n <= 7
    ensures w >> 56 == 0
    decreases 7 - n
  {
    if n < 7 {
      hide Down;
      BelowMore(w, n);
      BelowSeven(w, n + 1);
    } else {
      SevenDown(w);
    }
  }

  lemma SevenDown(w: bv64)
    requires Below(w, 7)
    ensures w >> 56 == 0
  {
    assert Down(Down(Down(Down(Down(Down(Down(w))))))) == 0 by {
      hide Down;
    }
    Downs(w);
  }

  lemma Downs(w: bv64)
    ensures Down(Down(Down(Down(Down(Down(Down(w))))))) == w >> 56
  {
  }

  /** The first byte and the others. */
  lemma ReadFirst(data: seq<bv8>, n: nat)
    requires 0 < n <= |data|
    ensures Read(data, n) == Or(data[0] as bv64, Up(Read(data[1..], n - 1)))
  {
    hide ShiftBytes, Or, Up;
    ReadJoined(data, 1, data[1..], n - 1);
    assert data[..1] + data[1..][..n - 1] == data[..n] && data == data[..n] + data[n..];
    ReadPrefix(data[..n], data[n..], n);
    OneByte(data, Read(data[1..], n - 1));
  }

  lemma OneByte(data: seq<bv8>, w: bv64)
    requires data != []
    ensures Read(data, 1) == data[0] as bv64 && ShiftBytes(w, 1) == Up(w)
  {
    hide Up;
    OrZero(data[0] as bv64);
    assert Read(data, 0) == 0;
    assert ShiftBytes(data[0] as bv64, 0) == data[0] as bv64;
  }

  /** `read_uint64` puts byte `i` of the data at bit `8 * i`, and leaves the bytes above at 0. */
  lemma {:induction false} ReadBytes(data: seq<bv8>, n: nat)
    requires n <= |data| && n <= 8
    ensures forall i :: 0 <= i < 8 ==> ByteAt(Read(data, n), i) == if i < n then data[i] else 0
    ensures Below(Read(data, n), n)
    decreases n
  {
    hide Read, Or, Up, Down, LowByte, ByteAt;
    if n == 0 {
      ReadNothing(data);
    } else {
      ReadBytes(data[1..], n - 1);
      var w := Read(data[1..], n - 1);
      ReadFirst(data, n);
      BelowSeven(w, n - 1);
      JoinedByte(data[0], w);
      forall i | 0 <= i < 8
        ensures ByteAt(Read(data, n), i) == if i < n then data[i] else 0
      {
        NextByte(Read(data, n), i);
      }
    }
  }

  lemma NextByte(w: bv64, i: nat)
    ensures ByteAt(w, i) == if i == 0 then LowByte(w) else ByteAt(Down(w), i - 1)
  {
  }

  lemma ReadNothing(data: seq<bv8>)
    ensures Read(data, 0) == 0 && Below(0, 0)
    ensures forall i :: 0 <= i < 8 ==> ByteAt(Read(data, 0), i) == 0
  {
    forall i | 0 <= i < 8
      ensures ByteAt(0, i) == 0
    {
      ZeroBytes(i);
    }
  }

  lemma {:induction false} ZeroBytes(i: nat)
    ensures ByteAt(0, i) == 0
  {
    DownZero();
    if i > 0 {
      ZeroBytes(i - 1);
    }
  }

  /** Byte `i` of the first `n`, or zero. */
  function Digit(data: seq<bv8>, n: nat, i: nat): bv64
    requires n <= |data|
  {
    if i < n then data[i] as bv64 else 0
  }

  /** As a number: each byte counts 256 times the one before it. */
  lemma ReadIsSum(data: seq<bv8>, n: nat)
    requires n <= |data| && n <= 8
    ensures Read(data, n) ==
      Digit(data, n, 0) + Digit(data, n, 1) * 0x100 + Digit(data, n, 2) * 0x1_0000
      + Digit(data, n, 3) * 0x100_0000 + Digit(data, n, 4) * 0x1_0000_0000
      + Digit(data, n, 5) * 0x100_0000_0000 + Digit(data, n, 6) * 0x1_0000_0000_0000
      + Digit(data, n, 7) * 0x100_0000_0000_0000
  {
    hide Read, ByteAt;
    ReadBytes(data, n);
    var w := Read(data, n);
    WordIsSum(w);
    assert forall i :: 0 <= i < 8 ==> ByteAt(w, i) as bv64 == Digit(data, n, i);
  }

  lemma WordIsSum(w: bv64)
    ensures w ==
      (ByteAt(w, 0) as bv64) + (ByteAt(w, 1) as bv64) * 0x100 + (ByteAt(w, 2) as bv64) * 0x1_0000
      + (ByteAt(w, 3) as bv64) * 0x100_0000 + (ByteAt(w, 4) as bv64) * 0x1_0000_0000
      + (ByteAt(w, 5) as bv64) * 0x100_0000_0000 + (ByteAt(w, 6) as bv64) * 0x1_0000_0000_0000
      + (ByteAt(w, 7) as bv64) * 0x100_0000_0000_0000
  {
    hide ByteAt;
    SumOfBytes(w);
    BytesAre(w);
  }

  lemma SumOfBytes(w: bv64)
    ensures w == (w & 0xFF) + ((w >> 8) & 0xFF) * 0x100 + ((w >> 16) & 0xFF) * 0x1_0000
      + ((w >> 24) & 0xFF) * 0x100_0000 + ((w >> 32) & 0xFF) * 0x1_0000_0000
      + ((w >> 40) & 0xFF) * 0x100_0000_0000 + ((w >> 48) & 0xFF) * 0x1_0000_0000_0000
      + ((w >> 56) & 0xFF) * 0x100_0000_0000_0000
  {
  }

  lemma BytesAre(w: bv64)
    ensures ByteAt(w, 0) as bv64 == (w & 0xFF) && ByteAt(w, 1) as bv64 == ((w >> 8) & 0xFF)
    ensures ByteAt(w, 2) as bv64 == ((w >> 16) & 0xFF) && ByteAt(w, 3) as bv64 == ((w >> 24) & 0xFF)
    ensures ByteAt(w, 4) as bv64 == ((w >> 32) & 0xFF) && ByteAt(w, 5) as bv64 == ((w >> 40) & 0xFF)
    ensures ByteAt(w, 6) as bv64 == ((w >> 48) & 0xFF) && ByteAt(w, 7) as bv64 == ((w >> 56) & 0xFF)
  {
  }

  /** Different blocks are different words. */
  lemma ReadInjective(a: seq<bv8>, b: seq<bv8>, n: nat)
    requires |a| == |b| == n <= 8 && Read(a, n) == Read(b, n)
    ensures a == b
  {
    hide Read, ByteAt;
    ReadBytes(a, n);
    ReadBytes(b, n);
    forall i | 0 <= i < n
      ensures a[i] == b[i]
    {
      assert ByteAt(Read(a, n), i) == ByteAt(Read(b, n), i);
    }
  }

  // ---- different words ----

  /** The lanes when a word has gone through its two rounds, before it is added once more. */
  function Mixed(l: Lanes, d: bv64): Lanes {
    Round(Round(l.(v3 := Xor(l.v3, d))))
  }

  /** Different words always leave different lanes there. */
  lemma MixedInjective(l: Lanes, d: bv64, e: bv64)
    requires Mixed(l, d) == Mixed(l, e)
    ensures d == e
  {
    hide Round, Unround, Xor;
    var (x, y) := (l.(v3 := Xor(l.v3, d)), l.(v3 := Xor(l.v3, e)));
    RoundUndone(Round(x));
    RoundUndone(Round(y));
    RoundUndone(x);
    RoundUndone(y);
    assert x.v3 == y.v3;
    XorCancelled(l.v3, d, e);
  }

  lemma XorCancelled(a: bv64, d: bv64, e: bv64)
    requires Xor(a, d) == Xor(a, e)
    ensures d == e
  {
  }

  /** The words have the same effect: the rounds leave lanes that differ by exactly the words, in the lane to
      which the words are added once more. */
  predicate SameEffect(l: Lanes, d: bv64, e: bv64) {
    var (r, s) := (Mixed(l, d), Mixed(l, e));
    r.v1 == s.v1 && r.v2 == s.v2 && r.v3 == s.v3 && Xor(r.v0, s.v0) == Xor(d, e)
  }

  lemma AbsorbSameExactly(l: Lanes, d: bv64, e: bv64)
    ensures Absorb(l, d) == Absorb(l, e) <==> SameEffect(l, d, e)
  {
    hide Round, Xor;
    XorMoves(Mixed(l, d).v0, d, Mixed(l, e).v0, e);
  }

  lemma XorMoves(a: bv64, d: bv64, b: bv64, e: bv64)
    ensures Xor(a, d) == Xor(b, e) <==> Xor(a, b) == Xor(d, e)
  {
    hide Xor;
    XorUndone(a, d);
    XorUndone(a, b);
    XorRegrouped(b, e, d);
    XorRegrouped(d, e, b);
  }

  lemma XorSwap(a: bv64, b: bv64)
    ensures Xor(a, b) == Xor(b, a)
  {
  }

  lemma XorJoin(a: bv64, b: bv64, c: bv64)
    ensures Xor(Xor(a, b), c) == Xor(a, Xor(b, c))
  {
  }

  lemma XorRegrouped(a: bv64, b: bv64, c: bv64)
    ensures Xor(Xor(Xor(a, b), c), a) == Xor(c, b) && Xor(c, b) == Xor(b, c)
  {
    hide Xor;
    XorSwap(a, b);
    XorJoin(b, a, c);
    XorSwap(a, c);
    XorJoin(b, c, a);
    XorUndone(Xor(b, c), a);
    XorSwap(b, c);
  }

  /** Two messages that differ in one block only: their words differ, and the states behind that block are
      the same exactly if those words have the same effect on the state before it. */
  lemma OneBlockDiffers(l: Lanes, before: seq<bv8>, x: seq<bv8>, y: seq<bv8>, behind: seq<bv8>)
    requires Buffered(|before|) == 0 && |x| == |y| == 8 && x != y
    ensures Read(x, 8) != Read(y, 8)
    ensures Blocks(l, before + x + behind) == Blocks(l, before + y + behind) <==>
      SameEffect(Blocks(l, before), Read(x, 8), Read(y, 8))
  {
    hide Blocks, Absorb, Read, SameEffect, Buffered;
    if Read(x, 8) == Read(y, 8) {
      ReadInjective(x, y, 8);
    }
    var at := Blocks(l, before);
    AfterBlock(l, before, x, behind);
    AfterBlock(l, before, y, behind);
    AbsorbSameExactly(at, Read(x, 8), Read(y, 8));
    if Blocks(l, before + x + behind) == Blocks(l, before + y + behind) {
      BlocksInjective(Absorb(at, Read(x, 8)), Absorb(at, Read(y, 8)), behind);
    }
  }

  lemma AfterBlock(l: Lanes, before: seq<bv8>, x: seq<bv8>, behind: seq<bv8>)
    requires Buffered(|before|) == 0 && |x| == 8
    ensures Blocks(l, before + x + behind) == Blocks(Absorb(Blocks(l, before), Read(x, 8)), behind)
  {
    hide Blocks, Absorb, Read;
    BlocksConcat(l, before + x, behind);
    BlocksConcat(l, before, x);
    OneBlock(Blocks(l, before), x);
  }

  /** One round of the start value under seed 0. */
  lemma RoundOfStart()
    ensures Round(Lanes(0x736F_6D65_7073_6575, 0x646F_7261_6E64_6F6D,
            0x6C79_6765_6E65_7261, 0x7465_6462_7974_6573))
      == Lanes(0x6394_8796_5A89_8377, 0xFE65_1BA6_CBCA_2366,
            0x3B14_5043_1A71_BDD2, 0x35E4_D2C2_2CB9_14E1)
  {
  }

  /** It does happen for some lanes: these do not tell two words apart. */
  const INDIFFERENT := Lanes(0x8565_0566_494C_E752, 0x2C32_147C_683D_C1CA, 0x502F_2AEE_599E_1019, 0xA72D_9043_3470_EF4C)

  lemma FirstOfZero()
    ensures Round(Lanes(0x8565_0566_494C_E752, 0x2C32_147C_683D_C1CA,
            0x502F_2AEE_599E_1019, 0xA72D_9043_3470_EF4C))
      == Lanes(0x18AA_385E_12D9_722A, 0xC3BF_4371_4EF7_0DCE,
            0x97C2_EBFF_EA75_5016, 0xF086_1015_1BD5_91DB)
  {
  }

  lemma SecondOfZero()
    ensures Round(Lanes(0x18AA_385E_12D9_722A, 0xC3BF_4371_4EF7_0DCE,
            0x97C2_EBFF_EA75_5016, 0xF086_1015_1BD5_91DB))
      == Lanes(0xFA2E_67B9_73FA_8D46, 0x1873_4EF5_C9AA_E18E,
            0x86B4_8980_BC50_4E26, 0x23C_959B_5D09_86FA)
  {
  }

  lemma FirstOfOther()
    ensures Round(Lanes(0x8565_0566_494C_E752, 0x2C32_147C_683D_C1CA,
            0x502F_2AEE_599E_1019, 0xAF6B_7B98_F65F_936D))
      == Lanes(0x358C_F9F5_8E27_26CF, 0xDB79_280B_8084_7611,
            0x59B1_9020_F2B3_3B6C, 0x2E97_6BF4_1397_A685)
  {
  }

  lemma SecondOfOther()
    ensures Round(Lanes(0x358C_F9F5_8E27_26CF, 0xDB79_280B_8084_7611,
            0x59B1_9020_F2B3_3B6C, 0x2E97_6BF4_1397_A685))
      == Lanes(0xF268_8C62_B1D5_F167, 0x1873_4EF5_C9AA_E18E,
            0x86B4_8980_BC50_4E26, 0x23C_959B_5D09_86FA)
  {
  }

  lemma WordsOfSameEffect()
    ensures var other: bv64 := 0x846_EBDB_C22F_7C21;
      other != 0 && SameEffect(INDIFFERENT, 0, other) && Absorb(INDIFFERENT, 0) == Absorb(INDIFFERENT, other)
  {
    var other: bv64 := 0x846_EBDB_C22F_7C21;
    assert Xor(INDIFFERENT.v3, 0) == INDIFFERENT.v3 && Xor(INDIFFERENT.v3, other) == 0xAF6B_7B98_F65F_936D;
    hide Round;
    FirstOfZero();
    SecondOfZero();
    FirstOfOther();
    SecondOfOther();
    AbsorbSameExactly(INDIFFERENT, 0, other);
  }

  // ---- a hash ----

  lemma BlockFirst()
    ensures Round(Lanes(0x736F_6D65_7073_6575, 0x646F_7261_6E64_6F6D,
            0x6C79_6765_6E65_7261, 0x1C02_0207_1D17_0712))
      == Lanes(0x6954_495E_644D_4537, 0x261A_FD02_2E68_82C7,
            0xDEB6_F1E2_C20E_5B76, 0xE625_C492_CA7C_0AB9)
  {
  }

  lemma BlockSecond()
    ensures Round(Lanes(0x6954_495E_644D_4537, 0x261A_FD02_2E68_82C7,
            0xDEB6_F1E2_C20E_5B76, 0xE625_C492_CA7C_0AB9))
      == Lanes(0x9304_4408_15A2_C66A, 0x92F0_BFF9_490C_28F2,
            0xF77_896C_95AB_BA23, 0x1234_8278_14E2_CFA5)
  {
  }

  lemma TailFirst()
    ensures Round(Lanes(0xFB63_226D_71C1_A40B, 0x92F0_BFF9_490C_28F2,
            0xF77_896C_95AB_BA23, 0x1B34_8278_14E2_CFCC))
      == Lanes(0x63A1_EC03_F396_7541, 0x52D6_A88C_D725_1BCB,
            0xEA62_2892_C458_D72B, 0x836D_4451_A8E3_6FC2)
  {
  }

  lemma TailSecond()
    ensures Round(Lanes(0x63A1_EC03_F396_7541, 0x52D6_A88C_D725_1BCB,
            0xEA62_2892_C458_D72B, 0x836D_4451_A8E3_6FC2))
      == Lanes(0xF45A_5513_B977_5A10, 0xCDD0_A8DD_2053_8491,
            0xD6FF_4243_D138_7B58, 0x74BA_0ACB_0972_69C8)
  {
  }

  lemma Final1()
    ensures Round(Lanes(0xFD5A_5513_B977_5A79, 0xCDD0_A8DD_2053_8491,
            0xD6FF_4243_D138_7BB6, 0x74BA_0ACB_0972_69C8))
      == Lanes(0x1B3D_2387_7E8D_8FB4, 0x9A1F_F5B8_4962_704C,
            0x8403_CC2E_29EA_A709, 0x94AB_4FD5_4605_A1FC)
  {
  }

  lemma Final2()
    ensures Round(Lanes(0x1B3D_2387_7E8D_8FB4, 0x9A1F_F5B8_4962_704C,
            0x8403_CC2E_29EA_A709, 0x94AB_4FD5_4605_A1FC))
      == Lanes(0x1F6A_5A07_8369_F6ED, 0x44BE_3FE5_DF6F_4B9C,
            0xF9E9_DC48_6499_2C16, 0x5FB3_9B9C_36A3_19A6)
  {
  }

  lemma Final3()
    ensures Round(Lanes(0x1F6A_5A07_8369_F6ED, 0x44BE_3FE5_DF6F_4B9C,
            0xF9E9_DC48_6499_2C16, 0x5FB3_9B9C_36A3_19A6))
      == Lanes(0x24DA_83D0_E6C2_B3FC, 0xB970_8EB0_B2DA_4872,
            0x26E7_0FDA_FD71_99E5, 0xC2A_D093_A73A_F3D4)
  {
  }

  lemma Final4()
    ensures Round(Lanes(0x24DA_83D0_E6C2_B3FC, 0xB970_8EB0_B2DA_4872,
            0x26E7_0FDA_FD71_99E5, 0xC2A_D093_A73A_F3D4))
      == Lanes(0x7D1F_43C3_35C3_9414, 0xB1B_446C_23BE_A7C3,
            0x753F_38F9_02AE_E549, 0x9795_ACD3_07BF_E45C)
  {
  }

  const ABCDEFGHI: seq<bv8> := [0x61, 0x62, 0x63, 0x64, 0x65, 0x66, 0x67, 0x68, 0x69]

  lemma WordsOfAbcdefghi()
    ensures Read(ABCDEFGHI, 8) == 0x6867_6665_6463_6261
    ensures LastWord(Tail(ABCDEFGHI), |ABCDEFGHI|) == 0x900_0000_0000_0069
  {
    ReadIsSum(ABCDEFGHI, 8);
    hide ShiftBytes, Or, Up;
    assert Tail(ABCDEFGHI) == [0x69];
    OneByte([0x69], 0);
    NineOnTop();
  }

  lemma NineOnTop()
    ensures Or(0x69, TopByte(9)) == 0x900_0000_0000_0069
  {
  }

  lemma BlockAbsorbed()
    ensures Absorb(Init(0), 0x6867_6665_6463_6261)
      == Lanes(0xFB63_226D_71C1_A40B, 0x92F0_BFF9_490C_28F2,
            0xF77_896C_95AB_BA23, 0x1234_8278_14E2_CFA5)
  {
    var l := Init(0);
    assert l.v0 == 0x736F_6D65_7073_6575 && l.v1 == 0x646F_7261_6E64_6F6D;
    assert l.v2 == 0x6C79_6765_6E65_7261 && Xor(l.v3, 0x6867_6665_6463_6261) == 0x1C02_0207_1D17_0712;
    hide Round;
    BlockFirst();
    BlockSecond();
  }

  lemma TailAbsorbed()
    ensures Absorb(Lanes(0xFB63_226D_71C1_A40B, 0x92F0_BFF9_490C_28F2,
            0xF77_896C_95AB_BA23, 0x1234_8278_14E2_CFA5), 0x900_0000_0000_0069)
      == Lanes(0xFD5A_5513_B977_5A79, 0xCDD0_A8DD_2053_8491,
            0xD6FF_4243_D138_7B58, 0x74BA_0ACB_0972_69C8)
  {
    assert Xor(0x1234_8278_14E2_CFA5, 0x900_0000_0000_0069) == 0x1B34_8278_14E2_CFCC;
    hide Round;
    TailFirst();
    TailSecond();
  }

  /** The hash of "abcdefghi" under seed 0: one block, and a last byte with the length on top. */
  lemma HashOfAbcdefghi()
    ensures SipHash(0, ABCDEFGHI) == 0x94AE_9385_136C_32C2
  {
    hide Absorb, Read, Init, LastWord;
    WordsOfAbcdefghi();
    assert |ABCDEFGHI| == 9;
    assert Blocks(Absorb(Init(0), Read(ABCDEFGHI, 8)), ABCDEFGHI[8..])
      == Absorb(Init(0), Read(ABCDEFGHI, 8));
    BlockAbsorbed();
    TailAbsorbed();
    assert Xor(0xD6FF_4243_D138_7B58, 0xee) == 0xD6FF_4243_D138_7BB6;
    hide Round;
    Final1();
    Final2();
    Final3();
    Final4();
  }
}
