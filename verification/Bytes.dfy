/** Byte strings, big-endian integers, and "these bytes stand at this offset". */
module Bytes {
  import Arith

  type byte = b: int | 0 <= b < 256

  /** The four bytes of a 32-bit word, most significant first (`beu32_enc`). */
  function U32Enc(n: nat): (s: seq<byte>)
    ensures |s| == 4
  {
    [n / 0x100_0000 % 256, n / 0x1_0000 % 256, n / 0x100 % 256, n % 256]
  }

  /** The two bytes of a 16-bit word, most significant first (`beu16_enc`). */
  function U16Enc(n: nat): (s: seq<byte>)
    ensures |s| == 2
  {
    [n / 0x100 % 256, n % 256]
  }

  function U16Dec(b: seq<byte>, p: nat): nat
    requires p + 2 <= |b|
  {
    (b[p] as int) * 0x100 + b[p + 1]
  }

  function U32Dec(b: seq<byte>, p: nat): nat
    requires p + 4 <= |b|
  {
    (b[p] as int) * 0x100_0000 + (b[p + 1] as int) * 0x1_0000 + (b[p + 2] as int) * 0x100 + b[p + 3]
  }

  /** `bei32_dec`: the same four bytes read in two's complement. */
  function I32Dec(b: seq<byte>, p: nat): int
    requires p + 4 <= |b|
  {
    var u := U32Dec(b, p);
    if u < 0x8000_0000 then u else u - 0x1_0000_0000
  }

  /** A value converted to a 64-bit `size_t`. */
  function SizeT(n: int): nat {
    n % Arith.UINT64_SIZE
  }

  lemma SizeTIs(n: int)
    requires 0 <= n < Arith.UINT64_SIZE
    ensures SizeT(n) == n
  {
  }

  function Zeros(n: nat): (s: seq<byte>)
    ensures |s| == n
    ensures forall i :: 0 <= i < n ==> s[i] == 0
  {
    seq(n, _ => 0)
  }

  /** The bytes `s` occupy offsets `p .. p + |s|` of `b`. */
  ghost predicate At(b: seq<byte>, p: nat, s: seq<byte>) {
    p + |s| <= |b| && b[p..p + |s|] == s
  }

  lemma AtAppend(b: seq<byte>, p: nat, s: seq<byte>, t: seq<byte>)
    ensures At(b, p, s + t) <==> At(b, p, s) && At(b, p + |s|, t)
  {
    if At(b, p, s + t) {
      assert b[p..p + |s|] == (s + t)[..|s|];
      assert b[p + |s|..p + |s| + |t|] == (s + t)[|s|..];
    }
    if At(b, p, s) && At(b, p + |s|, t) {
      assert b[p..p + |s + t|] == b[p..p + |s|] + b[p + |s|..p + |s| + |t|];
    }
  }

  lemma AtIndex(b: seq<byte>, p: nat, s: seq<byte>, i: nat)
    requires At(b, p, s) && i < |s|
    ensures b[p + i] == s[i]
  {
  }

  lemma U16RoundTrip(b: seq<byte>, p: nat, n: nat)
    requires n < 0x1_0000 && At(b, p, U16Enc(n))
    ensures U16Dec(b, p) == n
  {
  }

  lemma U32RoundTrip(b: seq<byte>, p: nat, n: nat)
    requires n < 0x1_0000_0000 && At(b, p, U32Enc(n))
    ensures U32Dec(b, p) == n
    ensures n < 0x8000_0000 ==> I32Dec(b, p) == n
  {
    var s := U32Enc(n);
    AtIndex(b, p, s, 0);
    AtIndex(b, p, s, 1);
    AtIndex(b, p, s, 2);
    AtIndex(b, p, s, 3);
    U32Digits(n);
  }

  lemma U32Digits(n: nat)
    requires n < 0x1_0000_0000
    ensures n / 0x100_0000 % 256 * 0x100_0000 + n / 0x1_0000 % 256 * 0x1_0000 + n / 0x100 % 256 * 0x100 + n % 256 == n
  {
    assert n / 0x1_0000 == n / 0x100_0000 * 256 + n / 0x1_0000 % 256;
    assert n / 0x100 == n / 0x1_0000 * 256 + n / 0x100 % 256;
  }
}
