/** Grouping of coordinates (include/clod/vmath.h). */
module VecGroup {
  import opened Arith

  // ---- machine operations on non-negative numbers ----

  function BitAnd(a: nat, b: nat): nat {
    if a == 0 || b == 0 then 0
    else 2 * BitAnd(a / 2, b / 2) + if a % 2 == 1 && b % 2 == 1 then 1 else 0
  }

  function BitOr(a: nat, b: nat): nat
    decreases a + b
  {
    if a == 0 then b else if b == 0 then a
    else 2 * BitOr(a / 2, b / 2) + if a % 2 == 1 || b % 2 == 1 then 1 else 0
  }

  /** `mask64` */
  function Mask64(bits: nat): nat {
    if bits >= 64 then UINT64_SIZE - 1 else Pow2(bits) - 1
  }

  /** A signed value converted to `uint64_t`. */
  function ToUnsigned(x: int): nat {
    x % UINT64_SIZE
  }

  /** The arithmetic right shift of a signed value. */
  function ShiftRight(x: int, bits: nat): int {
    x / Pow2(bits)
  }

  lemma AndStep(a: nat, half: nat)
    requires half > 0
    ensures BitAnd(a, 2 * half - 1) == 2 * BitAnd(a / 2, half - 1) + a % 2
  {
  }

  lemma OrStep(a: nat, c: nat)
    ensures BitOr(a, 2 * c) == 2 * BitOr(a / 2, c) + a % 2
  {
  }

  lemma Pow2Step(k: nat)
    requires k > 0
    ensures Pow2(k) == 2 * Pow2(k - 1)
  {
  }

  lemma Doubled(x: int, y: int)
    ensures x * (2 * y) == 2 * (x * y)
  {
  }

  lemma {:induction false} AndMask(a: nat, k: nat)
    ensures BitAnd(a, Pow2(k) - 1) == a % Pow2(k)
    decreases k
  {
    if k > 0 {
      hide BitAnd, Pow2;
      var half := Pow2(k - 1);
      Pow2Step(k);
      AndMask(a / 2, k - 1);
      AndStep(a, half);
      var q, r := DivMod(a / 2, half);
      Doubled(q, half);
      DivModUnique(a, 2 * half, q, 2 * r + a % 2);
    }
  }

  lemma {:induction false} OrDisjoint(a: nat, b: nat, k: nat)
    requires a < Pow2(k)
    ensures BitOr(a, b * Pow2(k)) == a + b * Pow2(k)
    decreases k
  {
    if k > 0 {
      hide BitOr, Pow2;
      var half := Pow2(k - 1);
      Pow2Step(k);
      OrDisjoint(a / 2, b, k - 1);
      Doubled(b, half);
      OrStep(a, b * half);
    }
  }

  // ---- the shares ----

  /** How many bits component `i` of `len` gives: the first ones give the extra bits. */
  function Share(bits: nat, len: nat, i: nat): nat
    requires i < len
  {
    (bits + len - 1 - i) / len
  }

  /** How many bits the components before `i` give together. */
  function Taken(bits: nat, len: nat, i: nat): nat
    requires i <= len
  {
    if i == 0 then 0 else Taken(bits, len, i - 1) + Share(bits, len, i - 1)
  }

  /** The running ceiling division of the code. */
  function RunningShare(bits: nat, taken: nat, len: nat, i: nat): int
    requires i < len
  {
    (bits - taken + len - i - 1) / (len - i)
  }

  lemma ShareIs(bits: nat, len: nat, i: nat)
    requires i < len
    ensures Share(bits, len, i) == bits / len + if i < bits % len then 1 else 0
  {
    var q, r := DivMod(bits, len);
    if i < r {
      MulDifference(q, -1, len);
      DivModUnique(bits + len - 1 - i, len, q + 1, r - 1 - i);
    } else {
      DivModUnique(bits + len - 1 - i, len, q, r + len - 1 - i);
    }
  }

  lemma {:induction false} TakenIs(bits: nat, len: nat, i: nat)
    requires i <= len && len > 0
    ensures var r := bits % len;
      Taken(bits, len, i) == i * (bits / len) + if i < r then i else r
    decreases i
  {
    if i > 0 {
      TakenIs(bits, len, i - 1);
      ShareIs(bits, len, i - 1);
      MulDifference(i, 1, bits / len);
    }
  }

  lemma RunningShareIs(bits: nat, len: nat, i: nat)
    requires i < len
    ensures RunningShare(bits, Taken(bits, len, i), len, i) == Share(bits, len, i)
  {
    hide Taken, Share;
    var q, r := DivMod(bits, len);
    TakenIs(bits, len, i);
    ShareIs(bits, len, i);
    Numerator(bits, q, r, len, i);
    if i < r {
      DivModUnique(bits - Taken(bits, len, i) + len - i - 1, len - i, q + 1, r - i - 1);
    } else {
      DivModUnique(bits - Taken(bits, len, i) + len - i - 1, len - i, q, len - i - 1);
    }
  }

  lemma Numerator(bits: nat, q: nat, r: nat, len: nat, i: nat)
    requires bits == q * len + r && i < len
    ensures bits - i * q == q * (len - i) + r
    ensures (q + 1) * (len - i) == q * (len - i) + len - i
  {
  }

  lemma AllTaken(bits: nat, len: nat)
    requires len > 0
    ensures Taken(bits, len, len) == bits
  {
    hide Taken;
    var q, r := DivMod(bits, len);
    TakenIs(bits, len, len);
  }

  /** The running division hands every component its share, and all bits in total; shares are the
      floor or the ceiling of an even split and never increase. */
  lemma SharesAreEven(bits: nat, len: nat, i: nat)
    requires i < len
    ensures RunningShare(bits, Taken(bits, len, i), len, i) == Share(bits, len, i)
    ensures Taken(bits, len, len) == bits
    ensures Share(bits, len, i) in {bits / len, (bits + len - 1) / len}
    ensures i > 0 ==> Share(bits, len, i) <= Share(bits, len, i - 1)
  {
    hide Taken, Share, RunningShare;
    RunningShareIs(bits, len, i);
    AllTaken(bits, len);
    ShareIs(bits, len, i);
    CeilingIsFirstShare(bits, len);
    ShareIs(bits, len, 0);
    if i > 0 {
      ShareIs(bits, len, i - 1);
    }
  }

  lemma CeilingIsFirstShare(bits: nat, len: nat)
    requires len > 0
    ensures Share(bits, len, 0) == (bits + len - 1) / len
  {
  }

  // ---- the group and the place within it ----

  /** The group that a vector lies in. */
  function Groups(v: seq<int>, bits: nat): (g: seq<int>)
    ensures |g| == |v|
  {
    seq(|v|, i requires 0 <= i < |v| => v[i] / Pow2(Share(bits, |v|, i)))
  }

  /** The vector's place within its group, from component `i` on: a number in mixed radix. */
  function IndexFrom(v: seq<int>, bits: nat, i: nat): nat
    requires i <= |v|
    decreases |v| - i
  {
    if i == |v| then 0
    else
      var radix := Pow2(Share(bits, |v|, i));
      v[i] % radix + radix * IndexFrom(v, bits, i + 1)
  }

  function Index(v: seq<int>, bits: nat): nat {
    IndexFrom(v, bits, 0)
  }

  lemma QuotientNatural(x: nat, n: nat)
    requires n > 0
    ensures x / n >= 0
  {
  }

  /** The vector at a place of a group, from component `i` on. */
  function UngroupFrom(g: seq<int>, bits: nat, index: nat, i: nat): (v: seq<int>)
    requires i <= |g|
    ensures |v| == |g| - i
    decreases |g| - i
  {
    if i == |g| then []
    else
      var radix := Pow2(Share(bits, |g|, i));
      QuotientNatural(index, radix);
      [g[i] * radix + index % radix] + UngroupFrom(g, bits, index / radix, i + 1)
  }

  function Ungroup(g: seq<int>, bits: nat, index: nat): (v: seq<int>)
    ensures |v| == |g|
  {
    UngroupFrom(g, bits, index, 0)
  }

  /** The bits that the components from `i` on give. */
  function Left(bits: nat, len: nat, i: nat): nat
    requires i <= len
    decreases len - i
  {
    if i == len then 0 else Share(bits, len, i) + Left(bits, len, i + 1)
  }

  lemma {:induction false} TakenAndLeft(bits: nat, len: nat, i: nat)
    requires i <= len
    ensures Taken(bits, len, i) + Left(bits, len, i) == Taken(bits, len, len)
    decreases len - i
  {
    if i < len {
      TakenAndLeft(bits, len, i + 1);
    }
  }

  lemma {:induction false} IndexFromBounded(v: seq<int>, bits: nat, i: nat)
    requires i <= |v|
    ensures IndexFrom(v, bits, i) < Pow2(Left(bits, |v|, i))
    decreases |v| - i
  {
    hide Share;
    if i < |v| {
      var s := Share(bits, |v|, i);
      var (rest, left) := (IndexFrom(v, bits, i + 1), Left(bits, |v|, i + 1));
      IndexFromBounded(v, bits, i + 1);
      Pow2Add(s, left);
      DigitBound(v[i] % Pow2(s), rest, Pow2(s), Pow2(left));
    }
  }

  lemma DigitBound(digit: nat, rest: nat, radix: nat, limit: nat)
    requires digit < radix && rest < limit
    ensures digit + radix * rest < radix * limit
  {
    MulDifference(limit, rest, radix);
    MulAtLeast(limit - rest, radix);
  }

  lemma DigitLeads(digit: nat, radix: nat, rest: nat)
    requires digit < radix
    ensures (digit + radix * rest) / radix == rest && (digit + radix * rest) % radix == digit
  {
    DivModUnique(digit + radix * rest, radix, rest, digit);
  }

  lemma {:induction false} UngroupIndex(v: seq<int>, bits: nat, i: nat)
    requires i <= |v|
    ensures UngroupFrom(Groups(v, bits), bits, IndexFrom(v, bits, i), i) == v[i..]
    decreases |v| - i
  {
    hide Share;
    if i < |v| {
      var radix := Pow2(Share(bits, |v|, i));
      var rest := IndexFrom(v, bits, i + 1);
      UngroupIndex(v, bits, i + 1);
      var q, r := DivMod(v[i], radix);
      DigitLeads(r, radix, rest);
      assert v[i..] == [v[i]] + v[i + 1..];
    }
  }

  lemma UngroupStep(g: seq<int>, bits: nat, index: nat, i: nat, v: seq<int>)
    requires i < |g| == |v| && v[i..] == UngroupFrom(g, bits, index, i)
    ensures var radix := Pow2(Share(bits, |g|, i));
      && index / radix >= 0
      && v[i] == g[i] * radix + index % radix
      && v[i + 1..] == UngroupFrom(g, bits, index / radix, i + 1)
  {
    hide Share, Pow2;
    QuotientNatural(index, Pow2(Share(bits, |g|, i)));
    assert v[i..][0] == v[i] && v[i..][1..] == v[i + 1..];
  }

  /** `g` is the group and `rest` what remains of the index, for the components of `v` from `i` on. */
  lemma {:induction false} IndexUngroup(g: seq<int>, bits: nat, index: nat, i: nat, v: seq<int>)
    requires i <= |g| == |v| && v[i..] == UngroupFrom(g, bits, index, i)
    requires index < Pow2(Left(bits, |g|, i))
    ensures IndexFrom(v, bits, i) == index
    ensures forall j :: i <= j < |g| ==> Groups(v, bits)[j] == g[j]
    decreases |g| - i
  {
    hide Share, UngroupFrom;
    if i < |g| {
      var s := Share(bits, |g|, i);
      var radix := Pow2(s);
      var q, r := DivMod(index, radix);
      Pow2Add(s, Left(bits, |g|, i + 1));
      QuotientBound(index, radix, Pow2(Left(bits, |g|, i + 1)));
      UngroupStep(g, bits, index, i, v);
      IndexUngroup(g, bits, q, i + 1, v);
      DivModUnique(v[i], radix, g[i], r);
    }
  }

  lemma QuotientBound(x: nat, radix: nat, limit: nat)
    requires radix > 0 && x < radix * limit
    ensures x / radix < limit
  {
  }

  /** Grouping is a bijection: the group and the index determine the vector, and every group with
      every index below 2^bits is hit, by exactly one vector. Negative coordinates are included. */
  lemma GroupingIsBijective(v: seq<int>, g: seq<int>, bits: nat, index: nat)
    requires |v| == |g| > 0 && index < Pow2(bits)
    ensures Index(v, bits) < Pow2(bits)
    ensures Groups(v, bits) == g && Index(v, bits) == index <==> v == Ungroup(g, bits, index)
  {
    hide Share, Groups;
    AllTaken(bits, |v|);
    TakenAndLeft(bits, |v|, 0);
    assert Taken(bits, |v|, 0) == 0;
    IndexFromBounded(v, bits, 0);
    UngroupIndex(v, bits, 0);
    assert v[0..] == v;
    if v == Ungroup(g, bits, index) {
      IndexUngroup(g, bits, index, 0, v);
      assert Groups(v, bits) == g;
    }
  }

  // ---- vec_group ----

  /** The shifts of the code are defined: no shift amount reaches 64. */
  predicate ShiftsDefined(bits: nat, len: nat) {
    bits < 64 || len == 0 || 2 <= len <= 64
  }

  lemma ShiftsBelow64(bits: nat, len: nat, i: nat)
    requires i < len && bits <= 64 && ShiftsDefined(bits, len)
    ensures Share(bits, len, i) < 64 && Taken(bits, len, i) < 64
  {
    hide Share, Taken, ShiftsDefined;
    var _, _ := DivMod(bits, len);
    var (q, r) := (bits / len, bits % len);
    TakenIs(bits, len, i);
    ShareIs(bits, len, i);
    Numerator(bits, q, r, len, i);
    QuotientNatural(bits, len);
    ProductBounds(q, len, i);
    BelowLimit(bits, len, i, q, r, q * len, i * q, q * (len - i));
  }

  /** Exactly when no shift amount of the code reaches 64. */
  lemma ShiftsDefinedExactly(bits: nat, len: nat)
    requires bits <= 64
    ensures ShiftsDefined(bits, len) <==>
      forall i :: 0 <= i < len ==> Share(bits, len, i) < 64 && Taken(bits, len, i) < 64
  {
    hide Share, Taken;
    if ShiftsDefined(bits, len) {
      forall i | 0 <= i < len
        ensures Share(bits, len, i) < 64 && Taken(bits, len, i) < 64
      {
        ShiftsBelow64(bits, len, i);
      }
    } else if len == 1 {
      ShareIs(64, 1, 0);
    } else {
      TakenIs(64, len, 64);
      assert Taken(bits, len, 64) == 64;
    }
  }

  /** The same with its three products named. */
  lemma BelowLimit(bits: nat, len: nat, i: nat, q: nat, r: nat, qLen: nat, iq: nat, rest: nat)
    requires i < len && r < len && bits <= 64 && ShiftsDefined(bits, len)
    requires bits == qLen + r && bits - iq == rest + r && rest >= q && qLen >= q && (q == 0 ==> qLen == 0)
    requires len >= 2 ==> qLen >= 2 * q
    ensures q + (if i < r then 1 else 0) < 64 && iq + (if i < r then i else r) < 64
  {
  }

  lemma ProductBounds(q: nat, len: nat, i: nat)
    requires i < len
    ensures q * (len - i) >= q && q * len >= q
    ensures len >= 2 ==> q * len >= 2 * q
  {
    MulAtLeast(len - i, q);
    MulAtLeast(len, q);
    if len >= 2 {
      MulDifference(len, 1, q);
      MulAtLeast(len - 1, q);
    }
  }

  lemma ModMod(x: int, a: nat, b: nat)
    requires a > 0 && b > 0 && a * b > 0
    ensures x % (a * b) % b == x % b
  {
    var q, r := DivMod(x, a * b);
    var q', r' := DivMod(r, b);
    Regroup(q, a, b, q');
    DivModUnique(x, b, q * a + q', r');
  }

  lemma Regroup(q: int, a: int, b: int, p: int)
    ensures q * (a * b) + p * b == (q * a + p) * b
  {
  }

  /** The masked low bits of a component, negative ones in two's complement. */
  lemma LowDigit(x: int, t: nat)
    requires t < 64
    ensures BitAnd(ToUnsigned(x), Mask64(t)) == x % Pow2(t)
  {
    hide Pow2, BitAnd;
    PowersOfTwo();
    Pow2Add(64 - t, t);
    AndMask(ToUnsigned(x), t);
    ModMod(x, Pow2(64 - t), Pow2(t));
  }

  /** One digit joins the index. */
  lemma DigitJoins(res: nat, taken: nat, digit: nat, t: nat, rest: nat)
    requires res < Pow2(taken) && digit < Pow2(t)
    ensures var joined := BitOr(res, digit * Pow2(taken));
      && joined < Pow2(taken + t)
      && joined + Pow2(taken + t) * rest == res + Pow2(taken) * (digit + Pow2(t) * rest)
  {
    OrDisjoint(res, digit, taken);
    Pow2Add(taken, t);
    DigitBound(res, digit, Pow2(taken), Pow2(t));
    Expand(res, Pow2(taken), digit, Pow2(t), rest);
  }

  lemma Expand(res: nat, a: nat, digit: nat, b: nat, rest: nat)
    ensures res + digit * a + a * b * rest == res + a * (digit + b * rest)
  {
  }

  /** One turn of the loop: the component's low bits join the index. */
  lemma ComponentJoins(v: seq<int>, bits: nat, i: nat, res: nat)
    requires i < |v| && bits <= 64 && ShiftsDefined(bits, |v|)
    requires res < Pow2(Taken(bits, |v|, i))
    ensures var t := Share(bits, |v|, i);
      var joined := BitOr(res, BitAnd(ToUnsigned(v[i]), Mask64(t)) * Pow2(Taken(bits, |v|, i)));
      && joined < Pow2(Taken(bits, |v|, i + 1))
      && joined + Pow2(Taken(bits, |v|, i + 1)) * IndexFrom(v, bits, i + 1)
         == res + Pow2(Taken(bits, |v|, i)) * IndexFrom(v, bits, i)
  {
    hide Share, Taken, BitAnd, BitOr, Mask64, ToUnsigned, ShiftsDefined, Pow2;
    var t := Share(bits, |v|, i);
    TakenNext(bits, |v|, i);
    ShiftsBelow64(bits, |v|, i);
    LowDigit(v[i], t);
    DigitJoins(res, Taken(bits, |v|, i), v[i] % Pow2(t), t, IndexFrom(v, bits, i + 1));
  }

  method VecGroup(vec: array<int>, groupBits: nat) returns (res: nat)
    requires forall i :: 0 <= i < vec.Length ==> IsInt64(vec[i])
    requires groupBits < 64 || vec.Length == 0 || 2 <= vec.Length <= 64
    modifies vec
    ensures groupBits <= 64 ==> vec[..] == Groups(old(vec[..]), groupBits) && res == Index(old(vec[..]), groupBits)
    ensures groupBits > 64 ==> vec[..] == Groups(old(vec[..]), 64) && res == Index(old(vec[..]), 64)
  {
    hide Share, Taken, BitAnd, BitOr, Mask64, ToUnsigned, Pow2, IndexFrom;
    var bits := if groupBits > 64 then 64 else groupBits;
    ghost var (v, len) := (vec[..], vec.Length);
    TakenNothing(bits, len);
    res := 0;
    var resBits := 0;
    for i := 0 to vec.Length
      invariant resBits == Taken(bits, len, i) && res < Pow2(resBits)
      invariant res + Pow2(resBits) * IndexFrom(v, bits, i) == Index(v, bits)
      invariant forall j :: 0 <= j < len ==> vec[j] == if j < i then Groups(v, bits)[j] else v[j]
    {
      RunningShareIs(bits, len, i);
      TakenNext(bits, len, i);
      ShiftsBelow64(bits, len, i);
      ComponentJoins(v, bits, i, res);
      var takeBits: nat := (bits - resBits + vec.Length - i - 1) / (vec.Length - i);
      assert takeBits < 64 && resBits < 64;
      var digit := BitAnd(ToUnsigned(vec[i]), Mask64(takeBits));
      res := BitOr(res, digit * Pow2(resBits));
      vec[i] := ShiftRight(vec[i], takeBits);
      resBits := resBits + takeBits;
    }
    NoneLeft(v, bits);
  }

  lemma NoneLeft(v: seq<int>, bits: nat)
    ensures IndexFrom(v, bits, |v|) == 0
  {
  }

  lemma TakenNothing(bits: nat, len: nat)
    ensures Taken(bits, len, 0) == 0 && Pow2(0) == 1
  {
  }

  lemma TakenNext(bits: nat, len: nat, i: nat)
    requires i < len
    ensures Taken(bits, len, i + 1) == Taken(bits, len, i) + Share(bits, len, i)
  {
  }

  // ---- examples ----

  lemma ShareOf(bits: nat, len: nat, i: nat, share: nat)
    requires i < len && share * len <= bits + len - 1 - i < share * len + len
    ensures Share(bits, len, i) == share
  {
    DivModUnique(bits + len - 1 - i, len, share, bits + len - 1 - i - share * len);
  }

  /** The shares of `bits` over `len` components, listed. */
  function Shares(bits: nat, len: nat): seq<nat> {
    seq(len, i requires 0 <= i < len => Share(bits, len, i))
  }

  /** Ten bits over three components are split 4, 3, 3. */
  lemma ExampleShares()
    ensures Shares(10, 3) == [4, 3, 3] && Shares(10, 2) == [5, 5]
  {
    hide Share;
    ShareOf(10, 3, 0, 4);
    ShareOf(10, 3, 1, 3);
    ShareOf(10, 3, 2, 3);
    ShareOf(10, 2, 0, 5);
    ShareOf(10, 2, 1, 5);
  }

  lemma ThirtyTwo()
    ensures Pow2(5) == 32
  {
    assert Pow2(2) == 4 && Pow2(3) == 8;
    hide Pow2;
    Pow2Add(2, 3);
  }

  lemma TwoComponents(x: int, y: int)
    ensures Groups([x, y], 10) == [x / 32, y / 32] && Index([x, y], 10) == x % 32 + 32 * (y % 32)
  {
    hide Share, Pow2;
    ShareOf(10, 2, 0, 5);
    ShareOf(10, 2, 1, 5);
    ThirtyTwo();
    var v := [x, y];
    assert IndexFrom(v, 10, 2) == 0;
    assert IndexFrom(v, 10, 1) == y % 32;
  }

  /** The vectors (31, 31), (31, 0), (-1, -1) and (-32, -32) with ten bits. */
  lemma ExampleGroups()
    ensures Groups([31, 31], 10) == [0, 0] && Index([31, 31], 10) == 1023
    ensures Groups([31, 0], 10) == [0, 0] && Index([31, 0], 10) == 31
    ensures Groups([-1, -1], 10) == [-1, -1] && Index([-1, -1], 10) == 1023
    ensures Groups([-32, -32], 10) == [-1, -1] && Index([-32, -32], 10) == 0
  {
    TwoComponents(31, 31);
    TwoComponents(31, 0);
    TwoComponents(-1, -1);
    TwoComponents(-32, -32);
  }
}
