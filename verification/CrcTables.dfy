/** The generator of the CRC tables (src/hash/crc_tables_generate.c). `uint64_t` is a word of 64 bits. */
module CrcTables {
  import Arith
  import opened Bits
  import opened Division

  datatype Details = Details(bits: nat, polynomial: Word, reflect: bool)

  /** The generator's variants have between 8 and 64 bits. */
  predicate Fits(d: Details) {
    8 <= d.bits <= 64 && |d.polynomial| == 64
  }

  const CRC64 := Details(64, FromNat(0x42F0E1EBA9EA3693, 64), false)
  const CRC32 := Details(32, FromNat(0x04C11DB7, 64), true)
  const CRC24 := Details(24, FromNat(0x864CFB, 64), false)
  const CRC16 := Details(16, FromNat(0x1021, 64), true)
  const CRC8 := Details(8, FromNat(0x07, 64), false)

  /** The polynomial's coefficients below its leading one. */
  function Poly(d: Details): (g: Word)
    requires Fits(d)
    ensures |g| == d.bits
  {
    Low(d.polynomial, d.bits)
  }

  /** The five polynomials have a constant term. */
  lemma VariantsAreOdd(d: Details)
    requires d in {CRC64, CRC32, CRC24, CRC16, CRC8}
    ensures Fits(d) && Odd(Poly(d))
  {
    hide FromNat;
    OddPolynomial(64, 0x42F0E1EBA9EA3693, false);
    OddPolynomial(32, 0x04C11DB7, true);
    OddPolynomial(24, 0x864CFB, false);
    OddPolynomial(16, 0x1021, true);
    OddPolynomial(8, 0x07, false);
  }

  lemma OddPolynomial(bits: nat, n: nat, reflect: bool)
    requires 8 <= bits <= 64 && n % 2 == 1
    ensures Odd(Poly(Details(bits, FromNat(n, 64), reflect)))
  {
  }

  /** What a table entry means: the byte, brought to the top of the register in the variant's bit
      order, times x^8. */
  function Entry(d: Details, i: nat): (r: Word)
    requires Fits(d)
    ensures |r| == d.bits
  {
    var g := Poly(d);
    if d.reflect then Reverse(MulXPow(g, Reverse(FromNat(i, d.bits)), 8))
    else MulXPow(g, FromNat(i, 8) + Zero(d.bits - 8), 8)
  }

  // ---- reflect ----

  /** `n >> i & 1`, moved to its mirrored place. */
  function MirroredBit(n: Word, bits: nat, i: nat): (r: Word)
    requires |n| == 64 && i < bits <= 64
    ensures |r| == 64
    ensures forall j :: 0 <= j < 64 ==> r[j] == (j == 64 - bits + i && n[63 - i])
  {
    var bit := And(Shr(n, i), FromNat(1, 64));
    OneIsLowest();
    assert bit[63] == n[63 - i];
    Shl(bit, bits - i - 1)
  }

  lemma OneIsLowest()
    ensures forall j :: 0 <= j < 64 ==> FromNat(1, 64)[j] == (j == 63)
  {
    ZeroBits(63);
    assert FromNat(1, 64) == FromNat(0, 63) + [true];
  }

  lemma {:induction false} ZeroBits(len: nat)
    ensures FromNat(0, len) == Zero(len)
  {
    if len > 0 {
      ZeroBits(len - 1);
    }
  }

  /** The mirrored word with its first `i` bits in place. */
  function Mirrored(n: Word, bits: nat, i: nat): (r: Word)
    requires |n| == 64 && i <= bits <= 64
    ensures |r| == 64
    ensures forall j :: 0 <= j < 64 ==>
      r[j] == (64 - bits <= j < 64 - bits + i && n[127 - bits - j])
  {
    seq(64, j requires 0 <= j < 64 => 64 - bits <= j < 64 - bits + i && n[127 - bits - j])
  }

  lemma MirrorNextBit(n: Word, bits: nat, i: nat)
    requires |n| == 64 && i < bits <= 64
    ensures Or(Mirrored(n, bits, i), MirroredBit(n, bits, i)) == Mirrored(n, bits, i + 1)
  {
    hide MirroredBit, FromNat;
  }

  lemma MirroredIsReverse(n: Word, bits: nat)
    requires |n| == 64 && bits <= 64
    ensures Mirrored(n, bits, 0) == Zero(64)
    ensures Mirrored(n, bits, bits) == Widen(Reverse(Low(n, bits)), 64)
    ensures Low(Mirrored(n, bits, bits), bits) == Reverse(Low(n, bits))
  {
  }

  method ReflectBits(n: Word, bits: nat) returns (r: Word)
    requires |n| == 64 && bits <= 64
    ensures r == Widen(Reverse(Low(n, bits)), 64)
  {
    hide Mirrored, MirroredBit, Masked, Reverse, Low;
    MirroredIsReverse(n, bits);
    r := Zero(64);
    for i := 0 to bits
      invariant r == Mirrored(n, bits, i)
    {
      MirrorNextBit(n, bits, i);
      r := Or(r, MirroredBit(n, bits, i));
    }
    if bits == 64 {
      return;
    }
    r := Masked(r, bits);
  }

  /** `w & MASK` keeps the low bits. */
  function Masked(w: Word, bits: nat): (r: Word)
    requires |w| == 64 && bits <= 64
    ensures |r| == 64 && r == Widen(Low(w, bits), 64)
  {
    var r := And(w, Mask(64, bits));
    assert r == Widen(Low(w, bits), 64);
    r
  }

  // ---- table_gen ----

  lemma LowOfShift(crc: Word, n: nat)
    requires |crc| == 64 && 8 <= n <= 64
    ensures Low(Shl(crc, 1), n) == Low(crc, n)[1..] + [false]
    ensures Low(crc, n)[0] == crc[64 - n]
  {
  }

  lemma LowOfXor(a: Word, b: Word, n: nat)
    requires |a| == |b| == 64 && n <= 64
    ensures Low(Xor(a, b), n) == Xor(Low(a, n), Low(b, n))
  {
  }

  lemma LowOfMasked(p: Word, n: nat)
    requires |p| == 64 && n <= 64
    ensures Low(And(p, Mask(64, n)), n) == Low(p, n)
  {
  }

  /** One turn of the inner loop on a 64-bit word: bits above the register's width pile up but never
      come back. */
  function ShiftStep(d: Details, crc: Word): (r: Word)
    requires Fits(d) && |crc| == 64
    ensures |r| == 64 && Low(r, d.bits) == MulX(Poly(d), Low(crc, d.bits))
  {
    hide Low, Shl, And, Mask, Xor;
    var polynomial := And(d.polynomial, Mask(64, d.bits));
    LowOfShift(crc, d.bits);
    LowOfMasked(d.polynomial, d.bits);
    LowOfXor(Shl(crc, 1), polynomial, d.bits);
    if crc[64 - d.bits] then Xor(Shl(crc, 1), polynomial) else Shl(crc, 1)
  }

  /** The register that the inner loop starts from. */
  lemma StartRegister(d: Details, i: nat)
    requires Fits(d) && i < 256
    ensures Low(FromNat(i, 64), d.bits) == FromNat(i, d.bits)
    ensures Low(Shl(FromNat(i, 64), d.bits - 8), d.bits) == FromNat(i, 8) + Zero(d.bits - 8)
  {
    hide FromNat;
    assert Arith.Pow2(8) == 256;
    FromNatWide(i, 8, 64);
    FromNatWide(i, 8, d.bits);
    assert FromNat(i, 64) == Zero(56) + FromNat(i, 8);
    assert FromNat(i, d.bits) == Zero(d.bits - 8) + FromNat(i, 8);
  }

  /** `table_gen` writes the 256 entries, each in the low bits of a 64-bit word. */
  method TableGen(table: array<Word>, d: Details)
    requires Fits(d) && table.Length == 256
    modifies table
    ensures forall i :: 0 <= i < 256 ==> table[i] == Widen(Entry(d, i), 64)
  {
    hide MulX, Reverse, FromNat;
    for i := 0 to 256
      invariant forall j :: 0 <= j < i ==> table[j] == Widen(Entry(d, j), 64)
    {
      var crc;
      StartRegister(d, i);
      if d.reflect {
        crc := ReflectBits(FromNat(i, 64), d.bits);
      } else {
        crc := Shl(FromNat(i, 64), d.bits - 8);
      }
      ghost var start := Low(crc, d.bits);
      for bit := 0 to 8
        invariant |crc| == 64
        invariant MulXPow(Poly(d), Low(crc, d.bits), 8 - bit) == MulXPow(Poly(d), start, 8)
      {
        crc := ShiftStep(d, crc);
      }
      if d.reflect {
        table[i] := ReflectBits(crc, d.bits);
      } else {
        table[i] := Masked(crc, d.bits);
      }
    }
  }
}
