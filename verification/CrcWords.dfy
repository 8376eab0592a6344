/** A register of up to 64 bits in the top bits of a machine word, so that one shift moves it: what it does to
    the bits, and which constants it holds. */
module CrcWords {
  import Arith
  import opened Bits
  import opened Division
  import opened CrcTables
  import opened Loops = Crc

  // Machine operations, named so that proofs can leave them uninterpreted.

  predicate High(b: bv64) {
    b >= 0x8000_0000_0000_0000
  }

  function Up(b: bv64): bv64 {
    b << 1
  }

  function Sum(a: bv64, b: bv64): bv64 {
    a ^ b
  }

  /** The `n` top bits of a machine word. */
  function TopBits(b: bv64, n: nat): (w: Word)
    ensures |w| == n
    decreases n
  {
    if n == 0 then [] else [High(b)] + TopBits(Up(b), n - 1)
  }

  /** The bits below the `n` top ones are 0. */
  predicate Aligned(b: bv64, n: nat)
    decreases n
  {
    if n == 0 then b == 0 else Aligned(Up(b), n - 1)
  }

  /** One step of the register. */
  function StepOf(p: bv64, s: bv64): bv64 {
    if High(s) then Sum(Up(s), p) else Up(s)
  }

  /** A byte, aligned like the register, is fed. */
  function ByteOf(p: bv64, s: bv64, x: bv64): bv64 {
    StepOf(p, StepOf(p, StepOf(p, StepOf(p, StepOf(p, StepOf(p, StepOf(p, StepOf(p, Sum(s, x)))))))))
  }

  // ---- machine words and bit sequences ----

  lemma OnZero()
    ensures Up(0) == 0 && !High(0) && Sum(0, 0) == 0
  {
  }

  lemma TopOfXor(a: bv64, b: bv64)
    ensures Up(Sum(a, b)) == Sum(Up(a), Up(b))
    ensures High(Sum(a, b)) <==> High(a) != High(b)
  {
  }

  lemma {:induction false} BitsOfXor(a: bv64, b: bv64, n: nat)
    ensures TopBits(Sum(a, b), n) == Xor(TopBits(a, n), TopBits(b, n))
    decreases n
  {
    hide High, Up, Sum;
    TopOfXor(a, b);
    if n > 0 {
      BitsOfXor(Up(a), Up(b), n - 1);
    }
  }

  lemma {:induction false} BitsOfShift(b: bv64, n: nat)
    requires n > 0 && Aligned(b, n)
    ensures TopBits(Up(b), n) == TopBits(b, n)[1..] + [false]
    decreases n
  {
    hide High, Up;
    OnZero();
    if n > 1 {
      BitsOfShift(Up(b), n - 1);
    }
  }

  lemma {:induction false} AlignedShift(b: bv64, n: nat)
    requires Aligned(b, n)
    ensures Aligned(Up(b), n)
    decreases n
  {
    hide Up;
    OnZero();
    if n > 0 {
      AlignedShift(Up(b), n - 1);
    }
  }

  lemma {:induction false} AlignedXor(a: bv64, b: bv64, n: nat)
    requires Aligned(a, n) && Aligned(b, n)
    ensures Aligned(Sum(a, b), n)
    decreases n
  {
    hide Up, Sum;
    OnZero();
    TopOfXor(a, b);
    if n > 0 {
      AlignedXor(Up(a), Up(b), n - 1);
    }
  }

  lemma {:induction false} BitsOfZero(b: bv64, n: nat)
    requires b == 0
    ensures TopBits(b, n) == Zero(n) && Aligned(b, n)
    decreases n
  {
    hide High, Up;
    OnZero();
    if n > 0 {
      BitsOfZero(Up(b), n - 1);
    }
  }

  /** A byte at the top, with nothing behind it. */
  lemma {:induction false} BitsOfByte(x: bv64, k: nat, n: nat)
    requires Aligned(x, k) && k <= n
    ensures TopBits(x, n) == TopBits(x, k) + Zero(n - k) && Aligned(x, n)
    decreases k
  {
    hide High, Up;
    if k == 0 {
      BitsOfZero(x, n);
    } else {
      BitsOfByte(Up(x), k - 1, n - 1);
    }
  }

  lemma {:induction false} SameTopBits(a: bv64, b: bv64, n: nat)
    requires Aligned(a, n) && Aligned(b, n) && TopBits(a, n) == TopBits(b, n)
    ensures a == b
    decreases n
  {
    hide High, Up;
    if n > 0 {
      var (v, w) := (TopBits(a, n), TopBits(b, n));
      assert v[0] == High(a) && w[0] == High(b);
      assert v[1..] == TopBits(Up(a), n - 1) && w[1..] == TopBits(Up(b), n - 1);
      SameTopBits(Up(a), Up(b), n - 1);
      ShiftAndTop(a, b);
    }
  }

  lemma ShiftAndTop(a: bv64, b: bv64)
    requires Up(a) == Up(b) && (High(a) <==> High(b))
    ensures a == b
  {
  }

  // ---- the register ----

  lemma StepIs(p: bv64, s: bv64, n: nat)
    requires n > 0 && Aligned(p, n) && Aligned(s, n)
    ensures TopBits(StepOf(p, s), n) == MulX(TopBits(p, n), TopBits(s, n)) && Aligned(StepOf(p, s), n)
  {
    hide High, Up, Sum, TopBits, Aligned;
    BitsOfShift(s, n);
    AlignedShift(s, n);
    BitsOfXor(Up(s), p, n);
    AlignedXor(Up(s), p, n);
    TopIs(s, n);
  }

  lemma TopIs(s: bv64, n: nat)
    requires n > 0
    ensures TopBits(s, n)[0] == High(s)
  {
  }

  function StepsOf(p: bv64, s: bv64, k: nat): bv64
    decreases k
  {
    if k == 0 then s else StepsOf(p, StepOf(p, s), k - 1)
  }

  lemma {:induction false} StepsAre(p: bv64, s: bv64, n: nat, k: nat)
    requires n > 0 && Aligned(p, n) && Aligned(s, n)
    ensures TopBits(StepsOf(p, s, k), n) == MulXPow(TopBits(p, n), TopBits(s, n), k) && Aligned(StepsOf(p, s, k), n)
    decreases k
  {
    if k > 0 {
      hide StepOf;
      StepIs(p, s, n);
      StepsAre(p, StepOf(p, s), n, k - 1);
    }
  }

  lemma EightSteps(p: bv64, s: bv64)
    ensures StepsOf(p, s, 8) ==
      StepOf(p, StepOf(p, StepOf(p, StepOf(p, StepOf(p, StepOf(p, StepOf(p, StepOf(p, s))))))))
  {
    hide StepOf;
  }

  /** Feeding a byte to the register. */
  lemma ByteIs(p: bv64, s: bv64, x: bv64, n: nat)
    requires n >= 8 && Aligned(p, n) && Aligned(s, n) && Aligned(x, 8)
    ensures Feed(TopBits(p, n), TopBits(s, n), TopBits(x, 8)) == TopBits(ByteOf(p, s, x), n)
    ensures Aligned(ByteOf(p, s, x), n)
  {
    hide TopBits, Aligned, StepOf, StepsOf, Feed, MulXPow;
    BitsOfByte(x, 8, n);
    BitsOfXor(s, x, n);
    AlignedXor(s, x, n);
    EightSteps(p, Sum(s, x));
    StepsAre(p, Sum(s, x), n, 8);
    FeedAtOnce(TopBits(p, n), TopBits(s, n), TopBits(x, 8));
  }

  // ---- hexadecimal constants ----

  function Ups(b: bv64, k: nat): bv64
    decreases k
  {
    if k == 0 then b else Ups(Up(b), k - 1)
  }

  lemma UpsByte(b: bv64)
    ensures Ups(b, 8) == b << 8
  {
    assert Ups(b, 8) == Up(Up(Up(Up(Up(Up(Up(Up(b)))))))) by {
      hide Up;
    }
    ShiftsAdd(b);
  }

  lemma ShiftsAdd(b: bv64)
    ensures Up(Up(Up(Up(Up(Up(Up(Up(b)))))))) == b << 8
  {
  }

  lemma {:induction false} UpsOn(b: bv64, k: nat, n: nat)
    ensures Ups(Ups(b, k), n) == Ups(b, k + n)
    decreases k
  {
    if k > 0 {
      hide Up;
      UpsOn(Up(b), k - 1, n);
    }
  }

  lemma {:induction false} TopBitsSplit(b: bv64, k: nat, n: nat)
    ensures TopBits(b, k + n) == TopBits(b, k) + TopBits(Ups(b, k), n)
    ensures Aligned(b, k + n) <==> Aligned(Ups(b, k), n)
    decreases k
  {
    if k > 0 {
      hide Up, High;
      TopBitsSplit(Up(b), k - 1, n);
    }
  }

  lemma {:induction false} FromNatOn(h: nat, l: nat, k: nat, n: nat)
    requires l < Arith.Pow2(n)
    ensures FromNat(h * Arith.Pow2(n) + l, k + n) == FromNat(h, k) + FromNat(l, n)
    decreases n
  {
    if n > 0 {
      FromNatOn(h, l / 2, k, n - 1);
      Arith.HalfOf(h, l, Arith.Pow2(n - 1));
    }
  }

  /** `number` spells the `k` top bits of `b`, and `rest` are the bits behind them. */
  ghost predicate Spelled(b: bv64, number: nat, k: nat, rest: bv64) {
    FromNat(number, k) == TopBits(b, k) && rest == Ups(b, k)
  }

  /** The four top bits of a machine word. */
  function FourTopBits(b: bv64): Word {
    [High(b), High(Up(b)), High(Up(Up(b))), High(Up(Up(Up(b))))]
  }

  lemma FourTopBitsAre(b: bv64)
    ensures TopBits(b, 4) == FourTopBits(b) && Ups(b, 4) == Up(Up(Up(Up(b))))
  {
    hide Up, High;
    assert TopBits(Up(Up(Up(Up(b)))), 0) == [];
    assert TopBits(Up(Up(b)), 2) == [High(Up(Up(b))), High(Up(Up(Up(b))))];
  }

  /** The eight top bits are those of two hexadecimal digits. */
  predicate Shows(rest: bv64, high: nat, low: nat) {
    FourTopBits(rest) == DigitBits(high) && FourTopBits(Up(Up(Up(Up(rest))))) == DigitBits(low)
  }

  function DigitBits(d: nat): Word {
    [d >= 8, d % 8 >= 4, d % 4 >= 2, d % 2 == 1]
  }

  lemma DigitBitsAre(d: nat)
    requires d < 0x10
    ensures FromNat(d, 4) == DigitBits(d)
  {
  }

  lemma ShownBits(rest: bv64, high: nat, low: nat)
    requires Shows(rest, high, low) && high < 0x10 && low < 0x10
    ensures TopBits(rest, 8) == FromNat(high, 4) + FromNat(low, 4)
  {
    hide High, Up, TopBits, FromNat, FourTopBits, DigitBits, Ups;
    FourTopBitsAre(rest);
    FourTopBitsAre(Up(Up(Up(Up(rest)))));
    TopBitsSplit(rest, 4, 4);
    DigitBitsAre(high);
    DigitBitsAre(low);
  }

  /** One more byte of two hexadecimal digits. */
  lemma SpellOn(b: bv64, number: nat, k: nat, rest: bv64, high: nat, low: nat)
    requires Spelled(b, number, k, rest) && high < 0x10 && low < 0x10
    requires Shows(rest, high, low)
    ensures Spelled(b, number * 0x100 + high * 0x10 + low, k + 8, rest << 8)
  {
    hide TopBits, Ups, FromNat, Up, High;
    assert Arith.Pow2(4) == 0x10;
    FromNatOn(number * 0x10 + high, low, k + 4, 4);
    FromNatOn(number, high, k, 4);
    TopBitsSplit(b, k, 8);
    UpsOn(b, k, 8);
    UpsByte(rest);
    ShownBits(rest, high, low);
  }

  lemma SpelledNothing(b: bv64)
    ensures Spelled(b, 0, 0, b)
  {
  }

  /** The digit with its four bits in the other order. */
  function MirrorDigit(d: nat): nat {
    match d
    case 0 => 0x0 case 1 => 0x8 case 2 => 0x4 case 3 => 0xC
    case 4 => 0x2 case 5 => 0xA case 6 => 0x6 case 7 => 0xE
    case 8 => 0x1 case 9 => 0x9 case 10 => 0x5 case 11 => 0xD
    case 12 => 0x3 case 13 => 0xB case 14 => 0x7 case _ => 0xF
  }

  lemma MirrorDigitIs(d: nat)
    requires d < 0x10
    ensures MirrorDigit(d) < 0x10 && DigitBits(MirrorDigit(d)) == Reverse(DigitBits(d))
  {
    var (b, r) := (DigitBits(d), Reverse(DigitBits(d)));
    assert r == [b[3], b[2], b[1], b[0]];
  }

  /** The `k` top bits of `b` spell `number` from its lowest bit on. */
  ghost predicate MirrorSpelled(b: bv64, number: nat, k: nat) {
    Reverse(FromNat(number, k)) == TopBits(b, k) && Aligned(b, k)
  }

  lemma MirroredNothing()
    ensures MirrorSpelled(0, 0, 0)
  {
  }

  lemma MirrorOn(b: bv64, number: nat, k: nat, more: bv64, high: nat, low: nat)
    requires MirrorSpelled(b, number, k) && more << 8 == b && high < 0x10 && low < 0x10
    requires Shows(more, MirrorDigit(low), MirrorDigit(high))
    ensures MirrorSpelled(more, number * 0x100 + high * 0x10 + low, k + 8)
  {
    hide TopBits, Aligned, Ups, FromNat, Up, High, Shows, MirrorDigit, DigitBits, Reverse;
    assert Arith.Pow2(4) == 0x10;
    FromNatOn(number * 0x10 + high, low, k + 4, 4);
    FromNatOn(number, high, k, 4);
    UpsByte(more);
    TopBitsSplit(more, 8, k);
    MirrorDigitIs(high);
    MirrorDigitIs(low);
    ShownBits(more, MirrorDigit(low), MirrorDigit(high));
    DigitBitsAre(high);
    DigitBitsAre(low);
    DigitBitsAre(MirrorDigit(low));
    DigitBitsAre(MirrorDigit(high));
    ReverseOfThree(FromNat(number, k), FromNat(high, 4), FromNat(low, 4));
  }

  lemma ReverseOfThree(a: Word, b: Word, c: Word)
    ensures Reverse(a + b + c) == Reverse(c) + Reverse(b) + Reverse(a)
  {
  }

  lemma OnesOn(b: bv64, k: nat, more: bv64)
    requires TopBits(b, k) == Ones(k) && Aligned(b, k) && more << 8 == b && Shows(more, 0xF, 0xF)
    ensures TopBits(more, k + 8) == Ones(k + 8) && Aligned(more, k + 8)
  {
    hide TopBits, Aligned, Ups, Up, High, Shows, FromNat;
    UpsByte(more);
    TopBitsSplit(more, 8, k);
    ShownBits(more, 0xF, 0xF);
    DigitBitsAre(0xF);
  }

  /** The start value of a register of `n` bits, aligned. */
  function AllOnes(n: nat): bv64 {
    if n == 8 then 0xFF00_0000_0000_0000
    else if n == 16 then 0xFFFF_0000_0000_0000
    else if n == 24 then 0xFFFF_FF00_0000_0000
    else if n == 32 then 0xFFFF_FFFF_0000_0000
    else 0xFFFF_FFFF_FFFF_FFFF
  }

  lemma AllOnesAre(n: nat)
    requires n in {8, 16, 24, 32, 64}
    ensures TopBits(AllOnes(n), n) == Ones(n) && Aligned(AllOnes(n), n)
  {
    hide TopBits, Aligned, Ones;
    NoOnes();
    OnesOn(0x0, 0, 0xFF00_0000_0000_0000);
    OnesOn(0xFF00_0000_0000_0000, 8, 0xFFFF_0000_0000_0000);
    OnesOn(0xFFFF_0000_0000_0000, 16, 0xFFFF_FF00_0000_0000);
    OnesOn(0xFFFF_FF00_0000_0000, 24, 0xFFFF_FFFF_0000_0000);
    OnesOn(0xFFFF_FFFF_0000_0000, 32, 0xFFFF_FFFF_FF00_0000);
    OnesOn(0xFFFF_FFFF_FF00_0000, 40, 0xFFFF_FFFF_FFFF_0000);
    OnesOn(0xFFFF_FFFF_FFFF_0000, 48, 0xFFFF_FFFF_FFFF_FF00);
    OnesOn(0xFFFF_FFFF_FFFF_FF00, 56, 0xFFFF_FFFF_FFFF_FFFF);
  }

  lemma NoOnes()
    ensures TopBits(0, 0) == Ones(0) && Aligned(0, 0)
  {
  }
}
