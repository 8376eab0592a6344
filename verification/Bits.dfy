/** Machine words as sequences of bits, most significant first. */
module Bits {
  import opened Arith

  type Word = seq<bool>

  function Zero(n: nat): (r: Word)
    ensures |r| == n && forall i :: 0 <= i < n ==> !r[i]
  {
    seq(n, _ => false)
  }

  function Xor(a: Word, b: Word): (r: Word)
    requires |a| == |b|
    ensures |r| == |a| && forall i :: 0 <= i < |a| ==> r[i] == (a[i] != b[i])
  {
    seq(|a|, i requires 0 <= i < |a| => a[i] != b[i])
  }

  function And(a: Word, b: Word): (r: Word)
    requires |a| == |b|
    ensures |r| == |a| && forall i :: 0 <= i < |a| ==> r[i] == (a[i] && b[i])
  {
    seq(|a|, i requires 0 <= i < |a| => a[i] && b[i])
  }

  function Or(a: Word, b: Word): (r: Word)
    requires |a| == |b|
    ensures |r| == |a| && forall i :: 0 <= i < |a| ==> r[i] == (a[i] || b[i])
  {
    seq(|a|, i requires 0 <= i < |a| => a[i] || b[i])
  }

  function Shl(w: Word, k: nat): (r: Word)
    requires k <= |w|
    ensures |r| == |w|
  {
    w[k..] + Zero(k)
  }

  function Shr(w: Word, k: nat): (r: Word)
    requires k <= |w|
    ensures |r| == |w|
  {
    Zero(k) + w[..|w| - k]
  }

  /** Zero extension to `n` bits. */
  function Widen(w: Word, n: nat): (r: Word)
    requires |w| <= n
    ensures |r| == n
  {
    Zero(n - |w|) + w
  }

  /** The `n` low bits. */
  function Low(w: Word, n: nat): (r: Word)
    requires n <= |w|
    ensures |r| == n
  {
    w[|w| - n..]
  }

  /** A word of `n` bits whose `k` low bits are set: `(1 << k) - 1`. */
  function Mask(n: nat, k: nat): (r: Word)
    requires k <= n
    ensures |r| == n && forall i :: 0 <= i < n ==> r[i] == (i >= n - k)
  {
    seq(n, i => i >= n - k)
  }

  function Reverse(w: Word): (r: Word)
    ensures |r| == |w| && forall i :: 0 <= i < |w| ==> r[i] == w[|w| - 1 - i]
  {
    seq(|w|, i requires 0 <= i < |w| => w[|w| - 1 - i])
  }

  /** The number a word stands for. */
  function Value(w: Word): nat {
    if w == [] then 0 else 2 * Value(w[..|w| - 1]) + if w[|w| - 1] then 1 else 0
  }

  /** The number `n`, truncated to `len` bits. */
  function FromNat(n: nat, len: nat): (r: Word)
    ensures |r| == len
  {
    if len == 0 then [] else FromNat(n / 2, len - 1) + [n % 2 == 1]
  }

  lemma {:induction false} FromValue(w: Word)
    ensures Value(w) < Pow2(|w|) && FromNat(Value(w), |w|) == w
  {
    if w != [] {
      FromValue(w[..|w| - 1]);
      assert w == w[..|w| - 1] + [w[|w| - 1]];
    }
  }

  lemma {:induction false} ValueOfWiden(w: Word, n: nat)
    requires |w| <= n
    ensures Value(Widen(w, n)) == Value(w)
    decreases |w|, n
  {
    var r := Widen(w, n);
    if w == [] {
      if n > 0 {
        assert r[..n - 1] == Widen(w, n - 1);
        ValueOfWiden(w, n - 1);
      }
    } else {
      assert r[..n - 1] == Widen(w[..|w| - 1], n - 1);
      ValueOfWiden(w[..|w| - 1], n - 1);
    }
  }

  lemma {:induction false} FromNatWide(n: nat, len: nat, wide: nat)
    requires n < Pow2(len) && len <= wide
    ensures FromNat(n, wide) == Widen(FromNat(n, len), wide)
    decreases wide
  {
    if wide > 0 {
      if len == 0 {
        FromNatWide(0, 0, wide - 1);
      } else {
        FromNatWide(n / 2, len - 1, wide - 1);
      }
    }
  }

  lemma XorCancels(a: Word, b: Word, c: Word)
    requires |a| == |b| == |c| && Xor(a, c) == Xor(b, c)
    ensures a == b
  {
  }

  lemma ReverseTwice(w: Word)
    ensures Reverse(Reverse(w)) == w
  {
  }

  lemma ReverseXor(a: Word, b: Word)
    requires |a| == |b|
    ensures Reverse(Xor(a, b)) == Xor(Reverse(a), Reverse(b))
  {
  }
}
