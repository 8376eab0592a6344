/** Polynomials over GF(2) and the bit-serial division that a CRC performs. A polynomial of degree `n`
    with leading coefficient 1 is given by its `n` lower coefficients, highest first. */
module Division {
  import opened Bits

  /** Multiplication by x modulo the polynomial `g`. */
  function MulX(g: Word, w: Word): (r: Word)
    requires |w| == |g| > 0
    ensures |r| == |g|
  {
    var shifted := w[1..] + [false];
    if w[0] then Xor(shifted, g) else shifted
  }

  function MulXPow(g: Word, w: Word, k: nat): (r: Word)
    requires |w| == |g| > 0
    ensures |r| == |g|
    decreases k
  {
    if k == 0 then w else MulXPow(g, MulX(g, w), k - 1)
  }

  /** One step of the bit-serial division register: the message bit meets the top bit. */
  function FeedBit(g: Word, state: Word, bit: bool): (r: Word)
    requires |state| == |g| > 0
    ensures |r| == |g|
  {
    MulX(g, state[0 := state[0] != bit])
  }

  function Feed(g: Word, state: Word, message: seq<bool>): (r: Word)
    requires |state| == |g| > 0
    ensures |r| == |g|
    decreases |message|
  {
    if message == [] then state else Feed(g, FeedBit(g, state, message[0]), message[1..])
  }

  // ---- multiplication by x is linear, and invertible if the polynomial is odd ----

  lemma MulXLinear(g: Word, a: Word, b: Word)
    requires |a| == |b| == |g| > 0
    ensures MulX(g, Xor(a, b)) == Xor(MulX(g, a), MulX(g, b))
  {
  }

  lemma {:induction false} MulXPowLinear(g: Word, a: Word, b: Word, k: nat)
    requires |a| == |b| == |g| > 0
    ensures MulXPow(g, Xor(a, b), k) == Xor(MulXPow(g, a, k), MulXPow(g, b, k))
    decreases k
  {
    if k > 0 {
      MulXLinear(g, a, b);
      MulXPowLinear(g, MulX(g, a), MulX(g, b), k - 1);
    }
  }

  predicate Odd(g: Word) {
    g != [] && g[|g| - 1]
  }

  lemma MulXInjective(g: Word, a: Word, b: Word)
    requires |a| == |b| == |g| && Odd(g)
    requires MulX(g, a) == MulX(g, b)
    ensures a == b
  {
    var n := |g|;
    assert MulX(g, a)[n - 1] == a[0] && MulX(g, b)[n - 1] == b[0];
    forall i | 1 <= i < n
      ensures a[i] == b[i]
    {
      assert MulX(g, a)[i - 1] == MulX(g, b)[i - 1];
    }
  }

  lemma {:induction false} MulXPowInjective(g: Word, a: Word, b: Word, k: nat)
    requires |a| == |b| == |g| && Odd(g)
    requires MulXPow(g, a, k) == MulXPow(g, b, k)
    ensures a == b
    decreases k
  {
    if k > 0 {
      MulXPowInjective(g, MulX(g, a), MulX(g, b), k - 1);
      MulXInjective(g, a, b);
    }
  }

  /** Leading zeros are shifted out without reduction. */
  lemma {:induction false} MulXPowShifts(g: Word, w: Word, k: nat)
    requires |w| == |g| > 0 && k <= |w|
    requires forall i :: 0 <= i < k ==> !w[i]
    ensures MulXPow(g, w, k) == Shl(w, k)
    decreases k
  {
    if k > 0 {
      MulXPowShifts(g, MulX(g, w), k - 1);
      assert Shl(Shl(w, 1), k - 1) == Shl(w, k);
    }
  }

  // ---- feeding up to a register's width of bits at once ----

  lemma {:induction false} FeedConcat(g: Word, state: Word, a: seq<bool>, b: seq<bool>)
    requires |state| == |g| > 0
    ensures Feed(g, state, a + b) == Feed(g, Feed(g, state, a), b)
    decreases |a|
  {
    if a == [] {
      assert a + b == b;
    } else {
      assert (a + b)[1..] == a[1..] + b;
      FeedConcat(g, FeedBit(g, state, a[0]), a[1..], b);
    }
  }

  lemma SplitFirstBit(state: Word, bits: seq<bool>)
    requires 0 < |bits| <= |state|
    ensures var zeros := |state| - |bits|;
      Xor(state, bits + Zero(zeros)) ==
      Xor(state[0 := state[0] != bits[0]], [false] + bits[1..] + Zero(zeros))
  {
  }

  lemma ShiftLaterBits(g: Word, rest: seq<bool>)
    requires |rest| < |g|
    ensures MulX(g, [false] + rest + Zero(|g| - |rest| - 1)) == rest + Zero(|g| - |rest|)
  {
  }

  /** Feeding at most `|g|` bits is adding them to the top of the register and multiplying by that
      power of x. */
  lemma {:induction false} FeedAtOnce(g: Word, state: Word, bits: seq<bool>)
    requires |state| == |g| > 0 && |bits| <= |g|
    ensures Feed(g, state, bits) == MulXPow(g, Xor(state, bits + Zero(|g| - |bits|)), |bits|)
    decreases |bits|
  {
    hide MulX, Xor;
    if bits == [] {
      FeedNothing(g, state);
      AddNothing(state);
    } else {
      var rest := bits[1..];
      var first := state[0 := state[0] != bits[0]];
      var later := [false] + rest + Zero(|g| - |bits|);
      FeedAtOnce(g, MulX(g, first), rest);
      SplitFirstBit(state, bits);
      MulXLinear(g, first, later);
      ShiftLaterBits(g, rest);
    }
  }

  lemma FeedNothing(g: Word, state: Word)
    requires |state| == |g| > 0
    ensures Feed(g, state, []) == state
  {
  }

  lemma FeedOne(g: Word, state: Word, bit: bool)
    requires |state| == |g| > 0
    ensures Feed(g, state, [bit]) == FeedBit(g, state, bit)
  {
  }

  lemma AddNothing(state: Word)
    ensures Xor(state, [] + Zero(|state|)) == state
  {
  }

  lemma {:induction false} FeedInjective(g: Word, s: Word, t: Word, message: seq<bool>)
    requires |s| == |t| == |g| && Odd(g)
    requires Feed(g, s, message) == Feed(g, t, message)
    ensures s == t
    decreases |message|
  {
    if message != [] {
      var (s', t') := (s[0 := s[0] != message[0]], t[0 := t[0] != message[0]]);
      FeedInjective(g, MulX(g, s'), MulX(g, t'), message[1..]);
      MulXInjective(g, s', t');
      assert s == s'[0 := s[0]] && t == t'[0 := t[0]];
    }
  }

  /** Burst errors: two messages that differ only within `|g|` consecutive bits never leave the same
      register, whatever stands before and behind. */
  lemma BurstDetected(g: Word, state: Word, before: seq<bool>, x: seq<bool>, y: seq<bool>, behind: seq<bool>)
    requires |state| == |g| && Odd(g)
    requires |x| == |y| <= |g| && x != y
    ensures Feed(g, state, before + x + behind) != Feed(g, state, before + y + behind)
  {
    var s := Feed(g, state, before);
    FeedConcat(g, state, before + x, behind);
    FeedConcat(g, state, before + y, behind);
    FeedConcat(g, state, before, x);
    FeedConcat(g, state, before, y);
    if Feed(g, Feed(g, s, x), behind) == Feed(g, Feed(g, s, y), behind) {
      FeedInjective(g, Feed(g, s, x), Feed(g, s, y), behind);
      SameBits(g, s, x, y);
    }
  }

  lemma SameBits(g: Word, s: Word, x: seq<bool>, y: seq<bool>)
    requires |s| == |g| && Odd(g) && |x| == |y| <= |g|
    requires Feed(g, s, x) == Feed(g, s, y)
    ensures x == y
  {
    var (x', y') := (x + Zero(|g| - |x|), y + Zero(|g| - |y|));
    FeedAtOnce(g, s, x);
    FeedAtOnce(g, s, y);
    MulXPowInjective(g, Xor(s, x'), Xor(s, y'), |x|);
    XorCommutes(s, x');
    XorCommutes(s, y');
    XorCancels(x', y', s);
    assert x == x'[..|x|] && y == y'[..|y|];
  }

  lemma XorCommutes(a: Word, b: Word)
    requires |a| == |b|
    ensures Xor(a, b) == Xor(b, a)
  {
  }

  // ---- the register holds the remainder of polynomial division ----

  /** The product of the polynomial with coefficients `q` and x^n + g, on |q| + n coefficients. */
  function Product(q: seq<bool>, g: Word): (r: Word)
    ensures |r| == |q| + |g|
    decreases |q|
  {
    if q == [] then Zero(|g|)
    else
      var k := |q| - 1;
      Xor(Product(q[..k], g) + [false], Zero(k) + Term(q[k], g))
  }

  /** The coefficients of the quotient, as the register finds them. */
  function Quotient(g: Word, state: Word, message: seq<bool>): (q: seq<bool>)
    requires |state| == |g| > 0
    ensures |q| == |message|
    decreases |message|
  {
    if message == [] then []
    else
      var k := |message| - 1;
      Quotient(g, state, message[..k]) + [Feed(g, state, message[..k])[0] != message[k]]
  }

  /** What is divided: the message times x^n, with the start state added to its first n bits. */
  function Dividend(state: Word, message: seq<bool>): (r: Word)
    ensures |r| == |message| + |state|
  {
    Xor(message + Zero(|state|), state + Zero(|message|))
  }

  /** `dividend == q * (x^n + g) + r` */
  ghost predicate Divides(dividend: Word, g: Word, q: seq<bool>, r: Word)
    requires |dividend| == |q| + |g| && |r| == |g|
  {
    dividend == Xor(Product(q, g), Zero(|q|) + r)
  }

  lemma {:induction false} FeedDivides(g: Word, state: Word, message: seq<bool>)
    requires |state| == |g| > 0
    ensures Divides(Dividend(state, message), g, Quotient(g, state, message), Feed(g, state, message))
    decreases |message|
  {
    if message == [] {
      NothingDivides(g, state);
    } else {
      FeedDividesOn(g, state, message);
    }
  }

  lemma NothingDivides(g: Word, state: Word)
    requires |state| == |g| > 0
    ensures Divides(Dividend(state, []), g, [], state)
  {
  }

  lemma {:induction false} FeedDividesOn(g: Word, state: Word, message: seq<bool>)
    requires |state| == |g| > 0 && message != []
    ensures Divides(Dividend(state, message), g, Quotient(g, state, message), Feed(g, state, message))
    decreases |message|, 0
  {
    hide Dividend, Divides, FeedBit, Feed;
    var k := |message| - 1;
    var (prefix, bit) := (message[..k], message[k]);
    var r := Feed(g, state, prefix);
    FeedDivides(g, state, prefix);
    assert message == prefix + [bit];
    FeedConcat(g, state, prefix, [bit]);
    FeedOne(g, r, bit);
    DividesStep(state, prefix, bit, g, Quotient(g, state, prefix), r);
  }

  lemma DividendStep(state: Word, prefix: seq<bool>, bit: bool, i: nat)
    requires i < |prefix| + 1 + |state|
    ensures Dividend(state, prefix + [bit])[i] ==
      ((i < |prefix| + |state| && Dividend(state, prefix)[i]) != (i == |prefix| && bit))
  {
  }

  /** The last coefficient's contribution to a product. */
  function Term(c: bool, g: Word): (r: Word)
    ensures |r| == |g| + 1
  {
    if c then [true] + g else Zero(|g| + 1)
  }

  lemma ProductOf(q: seq<bool>, c: bool, g: Word)
    ensures Product(q + [c], g) == Xor(Product(q, g) + [false], Zero(|q|) + Term(c, g))
  {
    hide Xor, Zero;
    assert (q + [c])[..|q|] == q;
  }

  lemma ProductStep(q: seq<bool>, c: bool, g: Word, i: nat)
    requires i < |q| + 1 + |g|
    ensures Product(q + [c], g)[i] ==
      ((i < |q| + |g| && Product(q, g)[i]) != (c && (i == |q| || (i > |q| && g[i - |q| - 1]))))
  {
    hide Product;
    ProductOf(q, c, g);
    TermAt(|q|, c, g, i);
  }

  lemma TermAt(k: nat, c: bool, g: Word, i: nat)
    requires i < k + 1 + |g|
    ensures (Zero(k) + Term(c, g))[i] == (c && (i == k || (i > k && g[i - k - 1])))
  {
  }

  lemma FeedBitAt(g: Word, r: Word, bit: bool, j: nat)
    requires |r| == |g| && j < |g|
    ensures FeedBit(g, r, bit)[j] == ((j + 1 < |g| && r[j + 1]) != ((r[0] != bit) && g[j]))
  {
  }

  lemma DividesStep(state: Word, prefix: seq<bool>, bit: bool, g: Word, q: seq<bool>, r: Word)
    requires |state| == |g| == |r| > 0 && |q| == |prefix|
    requires Divides(Dividend(state, prefix), g, q, r)
    ensures Divides(Dividend(state, prefix + [bit]), g, q + [r[0] != bit], FeedBit(g, r, bit))
  {
    hide Dividend, Product, FeedBit;
    var (k, n, c) := (|q|, |g|, r[0] != bit);
    var (d, p) := (Dividend(state, prefix), Product(q, g));
    var (d', p', r') := (Dividend(state, prefix + [bit]), Product(q + [c], g), FeedBit(g, r, bit));
    forall i | 0 <= i < k + 1 + n
      ensures d'[i] == (p'[i] != (Zero(k + 1) + r')[i])
    {
      DividendStep(state, prefix, bit, i);
      ProductStep(q, c, g, i);
      if i < k + n {
        assert d[i] == (p[i] != (Zero(k) + r)[i]);
      }
      if i > k {
        FeedBitAt(g, r, bit, i - k - 1);
      }
    }
    assert d' == Xor(p', Zero(k + 1) + r');
  }

  /** A multiple of x^n + g below degree n is zero, so quotient and remainder are unique. */
  lemma {:induction false} ProductLeads(q: seq<bool>, g: Word)
    requires forall i :: 0 <= i < |q| ==> !Product(q, g)[i]
    ensures q == Zero(|q|) && Product(q, g) == Zero(|q| + |g|)
    decreases |q|
  {
    if q != [] {
      var k := |q| - 1;
      forall i | 0 <= i < k
        ensures !Product(q[..k], g)[i]
      {
        assert !Product(q, g)[i];
      }
      ProductLeads(q[..k], g);
      assert !Product(q, g)[k];
      assert q == q[..k] + [q[k]];
    }
  }

  lemma {:induction false} ProductLinear(p: seq<bool>, q: seq<bool>, g: Word)
    requires |p| == |q|
    ensures Product(Xor(p, q), g) == Xor(Product(p, g), Product(q, g))
    decreases |p|
  {
    if p == [] {
      assert Xor(p, q) == [] && Xor(Zero(|g|), Zero(|g|)) == Zero(|g|);
    } else {
      var k := |p| - 1;
      hide Product;
      ProductLinear(p[..k], q[..k], g);
      ProductLinearOn(p[..k], p[k], q[..k], q[k], g);
      LastBit(p, q, k);
    }
  }

  lemma LastBit(p: seq<bool>, q: seq<bool>, k: nat)
    requires |p| == |q| == k + 1
    ensures p == p[..k] + [p[k]] && q == q[..k] + [q[k]]
    ensures Xor(p, q) == Xor(p[..k], q[..k]) + [p[k] != q[k]]
  {
  }

  lemma ProductLinearOn(p: seq<bool>, c: bool, q: seq<bool>, d: bool, g: Word)
    requires |p| == |q| && Product(Xor(p, q), g) == Xor(Product(p, g), Product(q, g))
    ensures Product(Xor(p, q) + [c != d], g) == Xor(Product(p + [c], g), Product(q + [d], g))
  {
    hide Product, Term, Xor, Zero;
    ProductOf(p, c, g);
    ProductOf(q, d, g);
    ProductOf(Xor(p, q), c != d, g);
    TermLinear(c, d, g);
    SumOfSums(Product(p, g), Product(q, g), |p|, Term(c, g), Term(d, g));
  }

  lemma TermLinear(c: bool, d: bool, g: Word)
    ensures Term(c != d, g) == Xor(Term(c, g), Term(d, g))
  {
  }

  lemma SumOfSums(a: Word, b: Word, k: nat, s: Word, t: Word)
    requires |a| == |b| && |s| == |t| && |a| + 1 == k + |s|
    ensures Xor(Xor(a, b) + [false], Zero(k) + Xor(s, t)) ==
      Xor(Xor(a + [false], Zero(k) + s), Xor(b + [false], Zero(k) + t))
  {
  }

  lemma DivisionUnique(d: Word, g: Word, q: seq<bool>, r: Word, q': seq<bool>, r': Word)
    requires |d| == |q| + |g| && |q| == |q'| && |r| == |r'| == |g|
    requires Divides(d, g, q, r) && Divides(d, g, q', r')
    ensures q == q' && r == r'
  {
    var (k, diff) := (|q|, Xor(q, q'));
    var (p, p') := (Product(q, g), Product(q', g));
    ProductLinear(q, q', g);
    forall i | 0 <= i < k
      ensures !Product(diff, g)[i]
    {
      assert Xor(p, Zero(k) + r)[i] == Xor(p', Zero(k) + r')[i];
    }
    ProductLeads(diff, g);
    forall i | 0 <= i < k
      ensures q[i] == q'[i]
    {
      assert !diff[i];
    }
    forall i | 0 <= i < |g|
      ensures r[i] == r'[i]
    {
      assert Xor(p, Zero(k) + r)[k + i] == Xor(p', Zero(k) + r')[k + i];
    }
  }

  /** The register ends with exactly the remainder of dividing the message polynomial, and with no
      other word. */
  lemma FeedIsRemainder(g: Word, state: Word, message: seq<bool>, r: Word)
    requires |state| == |g| == |r| > 0
    ensures r == Feed(g, state, message) <==>
      exists q :: |q| == |message| && Divides(Dividend(state, message), g, q, r)
  {
    FeedDivides(g, state, message);
    if q :| |q| == |message| && Divides(Dividend(state, message), g, q, r) {
      DivisionUnique(Dividend(state, message), g, q, r, Quotient(g, state, message), Feed(g, state, message));
    }
  }
}
