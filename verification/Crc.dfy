/** The table-driven CRC loops (src/hash/crc.c), and what they compute. */
module Crc {
  import Arith
  import opened Bits
  import opened Division
  import opened CrcTables

  type Octet = w: Word | |w| == 8 witness Zero(8)

  /** The constant table of a variant: what `table_gen` writes, in words of the variant's width. */
  function CrcTable(d: Details): (t: seq<Word>)
    requires Fits(d)
    ensures |t| == 256
  {
    seq(256, i requires 0 <= i < 256 => Entry(d, i))
  }

  /** The message as the stream of bits that the division sees: reflected variants take the lowest
      bit of each byte first. */
  function Stream(d: Details, data: seq<Octet>): (s: seq<bool>)
    ensures |s| == 8 * |data|
    decreases |data|
  {
    if data == [] then []
    else Stream(d, data[..|data| - 1]) + (if d.reflect then Reverse(data[|data| - 1]) else data[|data| - 1])
  }

  /** A CRC value as the state of the division register. */
  function Register(d: Details, crc: Word): (r: Word)
    ensures |r| == |crc|
  {
    if d.reflect then Reverse(crc) else crc
  }

  /** The CRC by bit-serial division. */
  function Crc(d: Details, crc: Word, data: seq<Octet>): (r: Word)
    requires Fits(d) && |crc| == d.bits
    ensures |r| == d.bits
  {
    Register(d, Feed(Poly(d), Register(d, crc), Stream(d, data)))
  }

  // ---- one table step is eight steps of the register ----

  lemma EntryOfByte(d: Details, x: Octet)
    requires Fits(d)
    ensures Value(x) < 256
    ensures CrcTable(d)[Value(x)] ==
      Register(d, MulXPow(Poly(d), Register(d, x) + Zero(d.bits - 8), 8))
  {
    hide FromNat, MulXPow, Poly, Reverse;
    assert Arith.Pow2(8) == 256;
    FromValue(x);
    FromNatWide(Value(x), 8, d.bits);
    ReverseWidened(x, d.bits);
  }

  lemma ReverseWidened(x: Octet, n: nat)
    requires n >= 8
    ensures Reverse(Widen(x, n)) == Reverse(x) + Zero(n - 8)
  {
  }

  /** The step of the left-shift form: the byte meets the top of the register. */
  lemma ByteStep(g: Word, state: Word, byte: Octet)
    requires |state| == |g| >= 8
    ensures Feed(g, state, byte) ==
      Xor(MulXPow(g, Xor(state[..8], byte) + Zero(|g| - 8), 8), Shl(state, 8))
  {
    var n := |g|;
    var (top, rest) := (Xor(state[..8], byte) + Zero(n - 8), Zero(8) + state[8..]);
    FeedAtOnce(g, state, byte);
    assert Xor(state, byte + Zero(n - 8)) == Xor(top, rest);
    MulXPowLinear(g, top, rest, 8);
    MulXPowShifts(g, rest, 8);
    assert Shl(rest, 8) == Shl(state, 8);
  }

  lemma LeftStep(d: Details, crc: Word, byte: Octet)
    requires Fits(d) && !d.reflect && |crc| == d.bits
    ensures Value(Xor(crc[..8], byte)) < 256
    ensures Xor(CrcTable(d)[Value(Xor(crc[..8], byte))], Shl(crc, 8)) == Feed(Poly(d), crc, byte)
  {
    EntryOfByte(d, Xor(crc[..8], byte));
    ByteStep(Poly(d), crc, byte);
  }

  /** The right-shift form is the mirror image of the left-shift form. */
  lemma RightStep(d: Details, crc: Word, byte: Octet)
    requires Fits(d) && d.reflect && |crc| == d.bits
    ensures Value(Xor(Low(crc, 8), byte)) < 256
    ensures Xor(CrcTable(d)[Value(Xor(Low(crc, 8), byte))], Shr(crc, 8))
         == Reverse(Feed(Poly(d), Reverse(crc), Reverse(byte)))
  {
    hide MulXPow;
    var x := Xor(Low(crc, 8), byte);
    EntryOfByte(d, x);
    ByteStep(Poly(d), Reverse(crc), Reverse(byte));
    assert Reverse(x) == Xor(Reverse(crc)[..8], Reverse(byte));
    var product := MulXPow(Poly(d), Reverse(x) + Zero(d.bits - 8), 8);
    ReverseXor(product, Shl(Reverse(crc), 8));
    assert Reverse(Shl(Reverse(crc), 8)) == Shr(crc, 8);
  }

  lemma CrcOneMore(d: Details, crc: Word, data: seq<Octet>, i: nat)
    requires Fits(d) && |crc| == d.bits && i < |data|
    ensures Crc(d, crc, data[..i + 1]) ==
      Register(d, Feed(Poly(d), Register(d, Crc(d, crc, data[..i])), Register(d, data[i])))
  {
    hide Feed;
    assert data[..i + 1][..i] == data[..i];
    var state := Register(d, crc);
    FeedConcat(Poly(d), state, Stream(d, data[..i]), Register(d, data[i]));
    ReverseTwice(Feed(Poly(d), state, Stream(d, data[..i])));
  }

  lemma CrcOfNothing(d: Details, crc: Word)
    requires Fits(d) && |crc| == d.bits
    ensures Crc(d, crc, []) == crc
  {
  }

  // ---- the loops ----

  method Crc64Add(crc: Word, data: seq<Octet>) returns (r: Word)
    requires |crc| == 64
    ensures r == Crc(CRC64, crc, data)
  {
    hide FromNat, CrcTable, Crc;
    CrcOfNothing(CRC64, crc);
    r := crc;
    for i := 0 to |data|
      invariant |r| == 64 && r == Crc(CRC64, crc, data[..i])
    {
      CrcOneMore(CRC64, crc, data, i);
      LeftStep(CRC64, r, data[i]);
      var index := Xor(Shr(r, 56), Widen(data[i], 64));
      assert index == Widen(Xor(r[..8], data[i]), 64);
      ValueOfWiden(Xor(r[..8], data[i]), 64);
      r := Xor(CrcTable(CRC64)[Value(index)], Shl(r, 8));
    }
    assert data[..|data|] == data;
  }

  method Crc32Add(crc: Word, data: seq<Octet>) returns (r: Word)
    requires |crc| == 32
    ensures r == Crc(CRC32, crc, data)
  {
    hide FromNat, CrcTable, Crc;
    CrcOfNothing(CRC32, crc);
    r := crc;
    for i := 0 to |data|
      invariant |r| == 32 && r == Crc(CRC32, crc, data[..i])
    {
      CrcOneMore(CRC32, crc, data, i);
      RightStep(CRC32, r, data[i]);
      var index := Xor(And(r, Mask(32, 8)), Widen(data[i], 32));
      assert index == Widen(Xor(Low(r, 8), data[i]), 32);
      ValueOfWiden(Xor(Low(r, 8), data[i]), 32);
      r := Xor(CrcTable(CRC32)[Value(index)], Shr(r, 8));
    }
    assert data[..|data|] == data;
  }

  /** The 24-bit register lives in the low bits of a 32-bit word, whose top byte is ignored on entry
      and zero on return. */
  method Crc24Add(crc: Word, data: seq<Octet>) returns (r: Word)
    requires |crc| == 32
    ensures r == Widen(Crc(CRC24, Low(crc, 24), data), 32)
  {
    hide FromNat, CrcTable, Crc;
    CrcOfNothing(CRC24, Low(crc, 24));
    r := And(crc, Mask(32, 24));
    assert r == Widen(Low(crc, 24), 32);
    for i := 0 to |data|
      invariant |r| == 32 && r == Widen(Crc(CRC24, Low(crc, 24), data[..i]), 32)
    {
      ghost var c := Crc(CRC24, Low(crc, 24), data[..i]);
      CrcOneMore(CRC24, Low(crc, 24), data, i);
      LeftStep(CRC24, c, data[i]);
      var index := Xor(Shr(r, 16), Widen(data[i], 32));
      assert index == Widen(Xor(c[..8], data[i]), 32);
      ValueOfWiden(Xor(c[..8], data[i]), 32);
      var entry := CrcTable(CRC24)[Value(index)];
      r := And(Xor(Widen(entry, 32), Shl(r, 8)), Mask(32, 24));
      assert r == Widen(Xor(entry, Shl(c, 8)), 32);
    }
    assert data[..|data|] == data;
  }

  method Crc16Add(crc: Word, data: seq<Octet>) returns (r: Word)
    requires |crc| == 16
    ensures r == Crc(CRC16, crc, data)
  {
    hide FromNat, CrcTable, Crc;
    CrcOfNothing(CRC16, crc);
    r := crc;
    for i := 0 to |data|
      invariant |r| == 16 && r == Crc(CRC16, crc, data[..i])
    {
      CrcOneMore(CRC16, crc, data, i);
      RightStep(CRC16, r, data[i]);
      var index := Xor(And(r, Mask(16, 8)), Widen(data[i], 16));
      assert index == Widen(Xor(Low(r, 8), data[i]), 16);
      ValueOfWiden(Xor(Low(r, 8), data[i]), 16);
      r := Xor(CrcTable(CRC16)[Value(index)], Shr(r, 8));
    }
    assert data[..|data|] == data;
  }

  /** The loop shifts right although the table is not reflected: on 8 bits both shifts leave zero. */
  method Crc8Add(crc: Word, data: seq<Octet>) returns (r: Word)
    requires |crc| == 8
    ensures r == Crc(CRC8, crc, data)
  {
    hide FromNat, CrcTable, Crc;
    CrcOfNothing(CRC8, crc);
    r := crc;
    for i := 0 to |data|
      invariant |r| == 8 && r == Crc(CRC8, crc, data[..i])
    {
      CrcOneMore(CRC8, crc, data, i);
      LeftStep(CRC8, r, data[i]);
      var index := Xor(And(r, Mask(8, 8)), data[i]);
      assert index == Xor(r[..8], data[i]);
      assert Shr(r, 8) == Shl(r, 8);
      r := Xor(CrcTable(CRC8)[Value(index)], Shr(r, 8));
    }
    assert data[..|data|] == data;
  }

  // ---- what a CRC promises ----

  /** A CRC is the remainder of dividing the message polynomial, times x^n and with the start value
      added to its first n bits, by the variant's polynomial; no other value is. */
  lemma CrcIsRemainder(d: Details, crc: Word, data: seq<Octet>, r: Word)
    requires Fits(d) && |crc| == |r| == d.bits
    ensures r == Crc(d, crc, data) <==>
      exists q :: |q| == 8 * |data|
        && Divides(Dividend(Register(d, crc), Stream(d, data)), Poly(d), q, Register(d, r))
  {
    hide Feed, Divides, Dividend;
    FeedIsRemainder(Poly(d), Register(d, crc), Stream(d, data), Register(d, r));
    ReverseTwice(r);
    ReverseTwice(Feed(Poly(d), Register(d, crc), Stream(d, data)));
  }

  lemma {:induction false} StreamConcat(d: Details, a: seq<Octet>, b: seq<Octet>)
    ensures Stream(d, a + b) == Stream(d, a) + Stream(d, b)
    decreases |b|
  {
    if b == [] {
      assert a + b == a;
    } else {
      assert (a + b)[..|a + b| - 1] == a + b[..|b| - 1];
      StreamConcat(d, a, b[..|b| - 1]);
    }
  }

  lemma SameParts(x: Word, y: Word, u: Word, v: Word)
    requires |x| == |u| && x + y == u + v
    ensures x == u && y == v
  {
    assert x == (x + y)[..|x|] && y == (x + y)[|x|..];
  }

  lemma {:induction false} StreamInjective(d: Details, a: seq<Octet>, b: seq<Octet>)
    requires |a| == |b| && Stream(d, a) == Stream(d, b)
    ensures a == b
    decreases |a|
  {
    if a != [] {
      hide Register, Reverse;
      var n := |a| - 1;
      SameParts(Stream(d, a[..n]), Register(d, a[n]), Stream(d, b[..n]), Register(d, b[n]));
      StreamInjective(d, a[..n], b[..n]);
      RegisterInjective(d, a[n], b[n]);
      assert a == a[..n] + [a[n]] && b == b[..n] + [b[n]];
    }
  }

  /** Adding a message in pieces gives the CRC of the whole. */
  lemma CrcStreams(d: Details, crc: Word, a: seq<Octet>, b: seq<Octet>)
    requires Fits(d) && |crc| == d.bits
    ensures Crc(d, Crc(d, crc, a), b) == Crc(d, crc, a + b)
  {
    hide Feed, Stream;
    var state := Register(d, crc);
    StreamConcat(d, a, b);
    FeedConcat(Poly(d), state, Stream(d, a), Stream(d, b));
    ReverseTwice(Feed(Poly(d), state, Stream(d, a)));
  }

  /** Two messages of the same length that differ, but only within `bits / 8` consecutive bytes, have
      different CRCs from the same start value, however long they are. */
  lemma CrcDetectsBurst(d: Details, crc: Word, a: seq<Octet>, b: seq<Octet>, from: nat, to: nat)
    requires Fits(d) && Odd(Poly(d)) && |crc| == d.bits
    requires |a| == |b| && from <= to <= |a| && 8 * (to - from) <= d.bits
    requires a[..from] == b[..from] && a[to..] == b[to..] && a != b
    ensures Crc(d, crc, a) != Crc(d, crc, b)
  {
    hide Feed, Stream, Poly, Odd, Register;
    var (before, x, y, behind) := (a[..from], a[from..to], b[from..to], a[to..]);
    assert a == before + x + behind && b == before + y + behind;
    StreamOfThree(d, before, x, behind);
    StreamOfThree(d, before, y, behind);
    if Stream(d, x) == Stream(d, y) {
      StreamInjective(d, x, y);
    }
    var state := Register(d, crc);
    BurstDetected(Poly(d), state, Stream(d, before), Stream(d, x), Stream(d, y), Stream(d, behind));
    if Crc(d, crc, a) == Crc(d, crc, b) {
      RegisterInjective(d, Feed(Poly(d), state, Stream(d, a)), Feed(Poly(d), state, Stream(d, b)));
    }
  }

  /** The same for the five variants of the library, from start value to finished checksum. */
  lemma ChecksumDetectsBurst(d: Details, a: seq<Octet>, b: seq<Octet>, from: nat, to: nat)
    requires d in {CRC64, CRC32, CRC24, CRC16, CRC8}
    requires |a| == |b| && from <= to <= |a| && 8 * (to - from) <= d.bits
    requires a[..from] == b[..from] && a[to..] == b[to..] && a != b
    ensures Fits(d) && Checksum(d, a) != Checksum(d, b)
  {
    hide Crc, Odd, FromNat, Poly;
    VariantsAreOdd(d);
    CrcDetectsBurst(d, Ones(d.bits), a, b, from, to);
    if Checksum(d, a) == Checksum(d, b) {
      XorCancels(Crc(d, Ones(d.bits), a), Crc(d, Ones(d.bits), b), Ones(d.bits));
    }
  }

  function Ones(n: nat): (r: Word)
    ensures |r| == n
  {
    seq(n, _ => true)
  }

  /** `clod_crcN(data, size)`: start from all ones, finish by complementing. */
  function Checksum(d: Details, data: seq<Octet>): Word
    requires Fits(d)
  {
    Xor(Crc(d, Ones(d.bits), data), Ones(d.bits))
  }

  lemma StreamOfThree(d: Details, a: seq<Octet>, b: seq<Octet>, c: seq<Octet>)
    ensures Stream(d, a + b + c) == Stream(d, a) + Stream(d, b) + Stream(d, c)
  {
    StreamConcat(d, a + b, c);
    StreamConcat(d, a, b);
  }

  lemma RegisterInjective(d: Details, s: Word, t: Word)
    requires Register(d, s) == Register(d, t)
    ensures s == t
  {
    ReverseTwice(s);
    ReverseTwice(t);
  }
}
