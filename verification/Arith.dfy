/** Machine widths, division with remainder, and powers of two. */
module Arith {

  const UINT64_SIZE: nat := 0x1_0000_0000_0000_0000

  /** `int64_t` */
  predicate IsInt64(x: int) {
    -0x8000_0000_0000_0000 <= x < 0x8000_0000_0000_0000
  }

  lemma Int64Range()
    ensures IsInt64(0x7FFF_FFFF_FFFF_FFFF) && !IsInt64(0x8000_0000_0000_0000)
    ensures IsInt64(-0x8000_0000_0000_0000) && !IsInt64(-0x8000_0000_0000_0001)
  {
  }

  lemma MulAtLeast(a: int, n: nat)
    requires a >= 1
    ensures a * n >= n
  {
  }

  lemma MulDifference(a: int, b: int, n: int)
    ensures (a - b) * n == a * n - b * n
  {
  }

  /** Quotient and remainder are determined by `x == q * n + r` with `0 <= r < n`. */
  lemma DivModUnique(x: int, n: nat, q: int, r: int)
    requires 0 <= r < n && x == q * n + r
    ensures x / n == q && x % n == r
  {
    var q', r' := DivMod(x, n);
    MulDifference(q, q', n);
    if q > q' {
      MulAtLeast(q - q', n);
    } else if q < q' {
      MulDifference(q', q, n);
      MulAtLeast(q' - q, n);
    }
  }

  lemma DivMod(x: int, n: nat) returns (q: int, r: int)
    requires n > 0
    ensures q == x / n && r == x % n && x == q * n + r && 0 <= r < n
  {
    q, r := x / n, x % n;
  }

  function Pow2(n: nat): (r: nat)
    ensures r > 0
  {
    if n == 0 then 1 else 2 * Pow2(n - 1)
  }

  lemma {:induction false} Pow2Add(a: nat, b: nat)
    ensures Pow2(a + b) == Pow2(a) * Pow2(b)
  {
    if a > 0 {
      Pow2Add(a - 1, b);
    }
  }

  lemma HalfOf(high: nat, low: nat, p: nat)
    ensures var n := high * (2 * p) + low;
      n / 2 == high * p + low / 2 && n % 2 == low % 2
  {
    assert high * (2 * p) == 2 * (high * p);
  }

  lemma PowersOfTwo()
    ensures Pow2(8) == 0x100 && Pow2(16) == 0x1_0000 && Pow2(24) == 0x100_0000
    ensures Pow2(32) == 0x1_0000_0000 && Pow2(64) == UINT64_SIZE
  {
    assert Pow2(8) == 0x100;
    hide Pow2;
    Pow2Add(8, 8);
    Pow2Add(16, 8);
    Pow2Add(16, 16);
    Pow2Add(32, 32);
  }
}
