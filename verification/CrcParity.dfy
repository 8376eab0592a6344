/** Which variants detect every odd number of flipped bits: those whose polynomial, the leading term
    included, has an even number of terms. */
module CrcParity {
  import Arith
  import opened Bits
  import opened Division
  import opened CrcTables
  import opened Loops = Crc

  /** How many bits of a word are set. */
  function Weight(w: Word): nat {
    if w == [] then 0 else (if w[0] then 1 else 0) + Weight(w[1..])
  }

  predicate OddWeight(w: Word) {
    Weight(w) % 2 == 1
  }

  /** How many bits differ between two messages. */
  function Flipped(a: seq<Octet>, b: seq<Octet>): nat
    requires |a| == |b|
    decreases |a|
  {
    if a == [] then 0
    else
      var k := |a| - 1;
      Flipped(a[..k], b[..k]) + Weight(Xor(a[k], b[k]))
  }

  /** Setting a bit adds one and clearing it takes one away; a word of no set bit weighs nothing
      (`WeightZero`). */
  lemma {:induction false} WeightOfOneBit(w: Word, i: nat)
    requires i < |w|
    ensures Weight(w[i := true]) == Weight(w[i := false]) + 1
  {
    if i > 0 {
      assert w[i := true][1..] == w[1..][i - 1 := true];
      assert w[i := false][1..] == w[1..][i - 1 := false];
      WeightOfOneBit(w[1..], i - 1);
    } else {
      assert w[0 := true][1..] == w[0 := false][1..] == w[1..];
    }
  }

  /** No bit of a message differs from itself, and turning one bit away from the other message's adds one
      to the count. */
  lemma {:induction false} FlippedOneBit(a: seq<Octet>, b: seq<Octet>, k: nat, i: nat)
    requires |a| == |b| && k < |a| && i < 8
    ensures Flipped(a, a) == 0
    ensures Flipped(a, b[k := b[k][i := !a[k][i]]]) == Flipped(a, b[k := b[k][i := a[k][i]]]) + 1
    decreases |a|
  {
    hide Weight;
    var n := |a| - 1;
    FlippedNothing(a);
    var (on, off) := (b[k][i := !a[k][i]], b[k][i := a[k][i]]);
    if k < n {
      FlippedOneBit(a[..n], b[..n], k, i);
      assert b[k := on][..n] == b[..n][k := on] && b[k := off][..n] == b[..n][k := off];
    } else {
      assert b[k := on][..n] == b[k := off][..n] == b[..n];
      WeightOfOneBit(Xor(a[k], b[k]), i);
      assert Xor(a[k], on) == Xor(a[k], b[k])[i := true];
      assert Xor(a[k], off) == Xor(a[k], b[k])[i := false];
    }
  }

  lemma {:induction false} FlippedNothing(a: seq<Octet>)
    ensures Flipped(a, a) == 0
    decreases |a|
  {
    if a != [] {
      var n := |a| - 1;
      FlippedNothing(a[..n]);
      WeightZero(8);
      assert Xor(a[n], a[n]) == Zero(8);
    }
  }

  lemma {:induction false} WeightConcat(a: Word, b: Word)
    ensures Weight(a + b) == Weight(a) + Weight(b)
  {
    if a == [] {
      assert a + b == b;
    } else {
      assert (a + b)[1..] == a[1..] + b;
      WeightConcat(a[1..], b);
    }
  }

  lemma {:induction false} WeightZero(n: nat)
    ensures Weight(Zero(n)) == 0
  {
    if n > 0 {
      assert Zero(n)[1..] == Zero(n - 1);
      WeightZero(n - 1);
    }
  }

  lemma {:induction false} OddXor(a: Word, b: Word)
    requires |a| == |b|
    ensures OddWeight(Xor(a, b)) <==> OddWeight(a) != OddWeight(b)
  {
    if a != [] {
      assert Xor(a, b)[1..] == Xor(a[1..], b[1..]);
      OddXor(a[1..], b[1..]);
    }
  }

  lemma {:induction false} WeightReverse(w: Word)
    ensures Weight(Reverse(w)) == Weight(w)
  {
    if w != [] {
      assert Reverse(w) == Reverse(w[1..]) + [w[0]];
      WeightConcat(Reverse(w[1..]), [w[0]]);
      WeightReverse(w[1..]);
    }
  }

  // ---- the register keeps the parity of what was fed ----

  lemma MulXKeepsParity(g: Word, w: Word)
    requires |w| == |g| > 0 && OddWeight(g)
    ensures OddWeight(MulX(g, w)) <==> OddWeight(w)
  {
    var shifted := w[1..] + [false];
    WeightConcat(w[1..], [false]);
    OddXor(shifted, g);
  }

  lemma {:induction false} FeedAddsParity(g: Word, state: Word, message: seq<bool>)
    requires |state| == |g| > 0 && OddWeight(g)
    ensures OddWeight(Feed(g, state, message)) <==> OddWeight(state) != OddWeight(message)
    decreases |message|
  {
    if message != [] {
      var s := state[0 := state[0] != message[0]];
      assert s[1..] == state[1..];
      MulXKeepsParity(g, s);
      FeedAddsParity(g, FeedBit(g, state, message[0]), message[1..]);
    }
  }

  lemma {:induction false} FlippedIsParity(d: Details, a: seq<Octet>, b: seq<Octet>)
    requires |a| == |b|
    ensures Flipped(a, b) % 2 == 1 <==> OddWeight(Stream(d, a)) != OddWeight(Stream(d, b))
    decreases |a|
  {
    if a != [] {
      var k := |a| - 1;
      FlippedIsParity(d, a[..k], b[..k]);
      OddXor(a[k], b[k]);
      StreamOneMore(d, a);
      StreamOneMore(d, b);
    }
  }

  lemma StreamOneMore(d: Details, a: seq<Octet>)
    requires a != []
    ensures Weight(Stream(d, a)) == Weight(Stream(d, a[..|a| - 1])) + Weight(a[|a| - 1])
  {
    var last := a[|a| - 1];
    WeightConcat(Stream(d, a[..|a| - 1]), if d.reflect then Reverse(last) else last);
    WeightReverse(last);
  }

  /** With an even number of terms in the whole polynomial, messages that differ in an odd number of bits
      have different CRCs, wherever those bits are. */
  lemma CrcDetectsOddErrors(d: Details, crc: Word, a: seq<Octet>, b: seq<Octet>)
    requires Fits(d) && OddWeight(Poly(d)) && |crc| == d.bits
    requires |a| == |b| && Flipped(a, b) % 2 == 1
    ensures Crc(d, crc, a) != Crc(d, crc, b)
  {
    hide Poly, OddWeight, Feed, Stream, Flipped;
    FlippedIsParity(d, a, b);
    var state := Register(d, crc);
    FeedAddsParity(Poly(d), state, Stream(d, a));
    FeedAddsParity(Poly(d), state, Stream(d, b));
    if Crc(d, crc, a) == Crc(d, crc, b) {
      RegisterInjective(d, Feed(Poly(d), state, Stream(d, a)), Feed(Poly(d), state, Stream(d, b)));
    }
  }

  // ---- with an odd number of terms, some odd error is missed ----

  lemma {:induction false} FeedLinear(g: Word, s: Word, t: Word, a: seq<bool>, b: seq<bool>)
    requires |s| == |t| == |g| > 0 && |a| == |b|
    ensures Feed(g, Xor(s, t), Xor(a, b)) == Xor(Feed(g, s, a), Feed(g, t, b))
    decreases |a|
  {
    if a != [] {
      var (s', t') := (s[0 := s[0] != a[0]], t[0 := t[0] != b[0]]);
      assert Xor(s', t') == Xor(s, t)[0 := Xor(s, t)[0] != Xor(a, b)[0]];
      MulXLinear(g, s', t');
      assert Xor(a, b)[1..] == Xor(a[1..], b[1..]);
      FeedLinear(g, MulX(g, s'), MulX(g, t'), a[1..], b[1..]);
    }
  }

  lemma {:induction false} FeedZeros(g: Word, k: nat)
    requires |g| > 0
    ensures Feed(g, Zero(|g|), Zero(k)) == Zero(|g|)
  {
    if k > 0 {
      var z := Zero(|g|);
      assert Zero(k)[1..] == Zero(k - 1);
      assert FeedBit(g, z, Zero(k)[0]) == z;
      FeedZeros(g, k - 1);
    }
  }

  /** The polynomial itself leaves an empty register. */
  lemma FeedPolynomial(g: Word, k: nat)
    requires |g| > 0
    ensures Feed(g, Zero(|g|), Zero(k) + [true] + g) == Zero(|g|)
  {
    var z := Zero(|g|);
    FeedZeros(g, k);
    FeedConcat(g, z, Zero(k) + [true], g);
    FeedConcat(g, z, Zero(k), [true]);
    FeedOne(g, z, true);
    FirstTerm(g);
    FeedAtOnce(g, g, g);
    assert Xor(g, g + Zero(0)) == Zero(|g|);
    MulXPowShifts(g, z, |g|);
    assert Shl(z, |g|) == z;
  }

  lemma FirstTerm(g: Word)
    requires |g| > 0
    ensures FeedBit(g, Zero(|g|), true) == g
  {
    var z := Zero(|g|);
    assert z[0 := true][1..] + [false] == z;
    assert FeedBit(g, z, true) == Xor(z, g);
  }

  /** The message whose stream is a given row of bits. */
  function Message(d: Details, bits: seq<bool>): (m: seq<Octet>)
    requires |bits| % 8 == 0
    ensures |m| == |bits| / 8
    decreases |bits|
  {
    if bits == [] then []
    else
      var k := |bits| - 8;
      Message(d, bits[..k]) + [if d.reflect then Reverse(bits[k..]) else bits[k..]]
  }

  lemma {:induction false} StreamOfMessage(d: Details, bits: seq<bool>)
    requires |bits| % 8 == 0
    ensures Stream(d, Message(d, bits)) == bits
    decreases |bits|
  {
    if bits != [] {
      var k := |bits| - 8;
      var m := Message(d, bits);
      StreamOfMessage(d, bits[..k]);
      assert m[..|m| - 1] == Message(d, bits[..k]);
      ReverseTwice(bits[k..]);
      assert bits == bits[..k] + bits[k..];
    }
  }

  /** The stream of the polynomial, with zeros before it to fill a byte. */
  function PolynomialBits(d: Details): (bits: seq<bool>)
    requires Fits(d)
    ensures |bits| % 8 == 0 && |bits| > d.bits
  {
    Zero(7 - d.bits % 8) + [true] + Poly(d)
  }

  /** With an odd number of terms, adding the polynomial itself to a message flips an odd number of bits and
      leaves every CRC as it was. */
  lemma OddErrorMissed(d: Details, crc: Word)
    requires Fits(d) && !OddWeight(Poly(d)) && |crc| == d.bits
    ensures var a := Message(d, PolynomialBits(d)); var b := Message(d, Zero(|PolynomialBits(d)|));
      |a| == |b| && Flipped(a, b) % 2 == 1 && Crc(d, crc, a) == Crc(d, crc, b)
  {
    hide Poly, Feed, Flipped, Message, Stream;
    var (g, state, bits) := (Poly(d), Register(d, crc), PolynomialBits(d));
    var (a, b) := (Message(d, bits), Message(d, Zero(|bits|)));
    StreamOfMessage(d, bits);
    StreamOfMessage(d, Zero(|bits|));
    PolynomialIsOdd(d);
    FlippedIsParity(d, a, b);
    FeedPolynomial(g, 7 - d.bits % 8);
    FeedLinear(g, Zero(|g|), state, bits, Zero(|bits|));
    assert Xor(Zero(|g|), state) == state && Xor(bits, Zero(|bits|)) == bits;
    var r := Feed(g, state, Zero(|bits|));
    assert Xor(Zero(|g|), r) == r;
  }

  lemma PolynomialIsOdd(d: Details)
    requires Fits(d) && !OddWeight(Poly(d))
    ensures OddWeight(PolynomialBits(d)) && !OddWeight(Zero(|PolynomialBits(d)|))
  {
    var k := 7 - d.bits % 8;
    WeightConcat(Zero(k) + [true], Poly(d));
    WeightConcat(Zero(k), [true]);
    WeightZero(k);
    WeightZero(|PolynomialBits(d)|);
  }

  /** Exactly the polynomials with an even number of terms detect every odd error. */
  lemma DetectsOddErrorsExactly(d: Details)
    requires Fits(d)
    ensures OddWeight(Poly(d)) <==>
      forall crc: Word, a: seq<Octet>, b: seq<Octet> ::
        |crc| == d.bits && |a| == |b| && Flipped(a, b) % 2 == 1 ==> Crc(d, crc, a) != Crc(d, crc, b)
  {
    hide Poly, OddWeight, Crc, Flipped, Message, PolynomialBits;
    if OddWeight(Poly(d)) {
      forall crc: Word, a: seq<Octet>, b: seq<Octet> | |crc| == d.bits && |a| == |b| && Flipped(a, b) % 2 == 1
        ensures Crc(d, crc, a) != Crc(d, crc, b)
      {
        CrcDetectsOddErrors(d, crc, a, b);
      }
    } else {
      OddErrorMissed(d, Zero(d.bits));
    }
  }

  // ---- the five variants ----

  /** How many bits of a number are set. */
  function BitsOf(n: nat): nat {
    if n == 0 then 0 else n % 2 + BitsOf(n / 2)
  }

  lemma {:induction false} WeightOfNat(n: nat, len: nat)
    requires n < Arith.Pow2(len)
    ensures Weight(FromNat(n, len)) == BitsOf(n)
  {
    if len > 0 {
      WeightOfNat(n / 2, len - 1);
      WeightConcat(FromNat(n / 2, len - 1), [n % 2 == 1]);
    }
  }

  /** The two lowest hexadecimal digits of a number. */
  lemma BitsOfByte(n: nat, high: nat, low: nat)
    requires high < 0x10 && low < 0x10
    ensures BitsOf(n * 0x100 + high * 0x10 + low) == BitsOf(n) + BitsOf(high) + BitsOf(low)
  {
    hide BitsOf;
    assert Arith.Pow2(4) == 0x10;
    BitsOfShifted(n * 0x10 + high, low, 4);
    BitsOfShifted(n, high, 4);
  }

  lemma {:induction false} BitsOfShifted(high: nat, low: nat, k: nat)
    requires low < Arith.Pow2(k)
    ensures BitsOf(high * Arith.Pow2(k) + low) == BitsOf(high) + BitsOf(low)
  {
    if k > 0 {
      BitsOfShifted(high, low / 2, k - 1);
      Arith.HalfOf(high, low, Arith.Pow2(k - 1));
    }
  }

  lemma BitsOfDigits()
    ensures BitsOf(0) == 0
    ensures BitsOf(1) == BitsOf(2) == BitsOf(4) == BitsOf(8) == 1
    ensures BitsOf(3) == BitsOf(5) == BitsOf(6) == BitsOf(9) == BitsOf(10) == BitsOf(12) == 2
    ensures BitsOf(7) == BitsOf(11) == BitsOf(13) == BitsOf(14) == 3
    ensures BitsOf(15) == 4
  {
  }

  lemma TermsOfPolynomials()
    ensures BitsOf(0x42F0E1EBA9EA3693) == 33 && BitsOf(0x04C11DB7) == 14
    ensures BitsOf(0x864CFB) == 13 && BitsOf(0x1021) == 3 && BitsOf(0x07) == 3
  {
    hide BitsOf;
    BitsOfDigits();
    BitsOfByte(0x42F0E1EBA9EA36, 0x9, 0x3);
    BitsOfByte(0x42F0E1EBA9EA, 0x3, 0x6);
    BitsOfByte(0x42F0E1EBA9, 0xE, 0xA);
    BitsOfByte(0x42F0E1EB, 0xA, 0x9);
    BitsOfByte(0x42F0E1, 0xE, 0xB);
    BitsOfByte(0x42F0, 0xE, 0x1);
    BitsOfByte(0x42, 0xF, 0x0);
    BitsOfByte(0, 0x4, 0x2);
    BitsOfByte(0x4C11D, 0xB, 0x7);
    BitsOfByte(0x4C1, 0x1, 0xD);
    BitsOfByte(0x4, 0xC, 0x1);
    BitsOfByte(0, 0x0, 0x4);
    BitsOfByte(0x864C, 0xF, 0xB);
    BitsOfByte(0x86, 0x4, 0xC);
    BitsOfByte(0, 0x8, 0x6);
    BitsOfByte(0x10, 0x2, 0x1);
    BitsOfByte(0, 0x1, 0x0);
    BitsOfByte(0, 0x0, 0x7);
  }

  lemma WeightOfPolynomial(bits: nat, n: nat, reflect: bool)
    requires 8 <= bits <= 64 && n < Arith.Pow2(bits)
    ensures Weight(Poly(Details(bits, FromNat(n, 64), reflect))) == BitsOf(n)
  {
    hide FromNat, Weight, BitsOf;
    FromNatWide(n, bits, 64);
    WeightOfNat(n, bits);
    assert Low(FromNat(n, 64), bits) == FromNat(n, bits);
  }

  /** Four of the five polynomials have an even number of terms; that of CRC-32 has 15. */
  lemma VariantsByParity()
    ensures OddWeight(Poly(CRC64)) && OddWeight(Poly(CRC24)) && OddWeight(Poly(CRC16)) && OddWeight(Poly(CRC8))
    ensures !OddWeight(Poly(CRC32))
  {
    hide FromNat, Weight, Poly, BitsOf;
    Arith.PowersOfTwo();
    WeightOfPolynomial(64, 0x42F0E1EBA9EA3693, false);
    WeightOfPolynomial(32, 0x04C11DB7, true);
    WeightOfPolynomial(24, 0x864CFB, false);
    WeightOfPolynomial(16, 0x1021, true);
    WeightOfPolynomial(8, 0x07, false);
    TermsOfPolynomials();
  }

  /** Every variant but CRC-32 detects every odd number of flipped bits, at any distance. */
  lemma ChecksumDetectsOddErrors(d: Details, a: seq<Octet>, b: seq<Octet>)
    requires d in {CRC64, CRC24, CRC16, CRC8}
    requires |a| == |b| && Flipped(a, b) % 2 == 1
    ensures Fits(d) && Checksum(d, a) != Checksum(d, b)
  {
    hide FromNat, Poly, OddWeight, Flipped, Loops.Crc;
    VariantsByParity();
    CrcDetectsOddErrors(d, Ones(d.bits), a, b);
    if Checksum(d, a) == Checksum(d, b) {
      XorCancels(Loops.Crc(d, Ones(d.bits), a), Loops.Crc(d, Ones(d.bits), b), Ones(d.bits));
    }
  }

  /** CRC-32 does not: two messages of five bytes that differ in 15 bits have the same checksum. */
  lemma Crc32MissesAnOddError()
    ensures exists a, b :: |a| == |b| == 5 && Flipped(a, b) % 2 == 1 && Checksum(CRC32, a) == Checksum(CRC32, b)
  {
    hide FromNat, Poly, OddWeight, Flipped, Message, Loops.Crc;
    VariantsByParity();
    OddErrorMissed(CRC32, Ones(32));
    var a := Message(CRC32, PolynomialBits(CRC32));
    var b := Message(CRC32, Zero(|PolynomialBits(CRC32)|));
    assert Checksum(CRC32, a) == Checksum(CRC32, b);
  }
}
