/** Absorbing message words loses nothing: the rounds are permutations of the state. */
module SipMix {
  import opened SipSpec

  function Minus(a: bv64, b: bv64): bv64 {
    a - b
  }

  function Rotr13(w: bv64): bv64 { (w >> 13) | (w << 51) }

  function Rotr16(w: bv64): bv64 { (w >> 16) | (w << 48) }

  function Rotr17(w: bv64): bv64 { (w >> 17) | (w << 47) }

  function Rotr21(w: bv64): bv64 { (w >> 21) | (w << 43) }

  lemma RotationsUndone(w: bv64)
    ensures Rotr13(Rotl13(w)) == w && Rotr16(Rotl16(w)) == w
    ensures Rotr17(Rotl17(w)) == w && Rotr21(Rotl21(w)) == w && Rotl32(Rotl32(w)) == w
  {
  }

  lemma SumIs(a: bv64, b: bv64, sum: bv64)
    requires sum == Plus(a, b)
    ensures sum == a + b
  {
  }

  lemma DifferenceIs(a: bv64, b: bv64, sum: bv64)
    requires sum == a + b
    ensures Minus(sum, b) == a
  {
  }

  lemma SumUndone(a: bv64, b: bv64)
    ensures Minus(Plus(a, b), b) == a
  {
    hide Minus;
    SumIs(a, b, Plus(a, b));
    DifferenceIs(a, b, Plus(a, b));
  }

  lemma XorUndone(a: bv64, b: bv64)
    ensures Xor(Xor(a, b), b) == a
  {
  }

  /** The inverse of a round. */
  function Unround(l: Lanes): Lanes {
    var a3 := Rotr21(Xor(l.v3, l.v0));
    var a0 := Rotl32(Minus(l.v0, a3));
    var b2 := Rotl32(l.v2);
    var a1 := Rotr17(Xor(l.v1, b2));
    var a2 := Minus(b2, a1);
    var v3 := Rotr16(Xor(a3, a2));
    var v1 := Rotr13(Xor(a1, a0));
    Lanes(Minus(a0, v1), v1, Minus(a2, v3), v3)
  }

  lemma RoundUndone(l: Lanes)
    ensures Unround(Round(l)) == l
  {
    hide Plus, Minus, Xor, Rotl13, Rotl16, Rotl17, Rotl21, Rotl32, Rotr13, Rotr16, Rotr17, Rotr21;
    var a0 := Plus(l.v0, l.v1);
    var a1 := Xor(Rotl13(l.v1), a0);
    var a2 := Plus(l.v2, l.v3);
    var a3 := Xor(Rotl16(l.v3), a2);
    var b0 := Plus(Rotl32(a0), a3);
    var b2 := Plus(a2, a1);
    XorUndone(Rotl21(a3), b0);
    RotationsUndone(a3);
    SumUndone(Rotl32(a0), a3);
    RotationsUndone(a0);
    RotationsUndone(b2);
    XorUndone(Rotl17(a1), b2);
    RotationsUndone(a1);
    SumUndone(a2, a1);
    XorUndone(Rotl16(l.v3), a2);
    RotationsUndone(l.v3);
    XorUndone(Rotl13(l.v1), a0);
    RotationsUndone(l.v1);
    SumUndone(l.v0, l.v1);
    SumUndone(l.v2, l.v3);
  }

  /** Different states stay different under the same message word. */
  lemma AbsorbInjective(k: Lanes, l: Lanes, d: bv64)
    requires Absorb(k, d) == Absorb(l, d)
    ensures k == l
  {
    hide Round, Xor;
    AbsorbUndone(k, d);
    AbsorbUndone(l, d);
  }

  /** The inverse of absorbing a word. */
  function Unabsorb(l: Lanes, d: bv64): Lanes {
    var r := Unround(Unround(l.(v0 := Xor(l.v0, d))));
    r.(v3 := Xor(r.v3, d))
  }

  lemma AbsorbUndone(l: Lanes, d: bv64)
    ensures Unabsorb(Absorb(l, d), d) == l
  {
    hide Round, Unround, Xor;
    var x := l.(v3 := Xor(l.v3, d));
    var r := Round(Round(x));
    XorUndone(r.v0, d);
    XorUndone(l.v3, d);
    RoundUndone(Round(x));
    RoundUndone(x);
    assert Absorb(l, d).(v0 := Xor(Absorb(l, d).v0, d)) == r;
  }

  /** States that differ still do after absorbing the same blocks. */
  lemma {:induction false} BlocksInjective(k: Lanes, l: Lanes, m: seq<bv8>)
    requires Blocks(k, m) == Blocks(l, m)
    ensures k == l
    decreases |m|
  {
    if |m| >= 8 {
      hide Absorb, Read;
      BlocksInjective(Absorb(k, Read(m, 8)), Absorb(l, Read(m, 8)), m[8..]);
      AbsorbInjective(k, l, Read(m, 8));
    }
  }

  /** Hashes of one message under different seeds are never in the same state. */
  lemma SeedsStayApart(s: bv64, t: bv64, m: seq<bv8>)
    requires s != t
    ensures Blocks(Init(s), m) != Blocks(Init(t), m)
  {
    hide Blocks;
    if Blocks(Init(s), m) == Blocks(Init(t), m) {
      BlocksInjective(Init(s), Init(t), m);
      SeedOfLane(s);
      SeedOfLane(t);
    }
  }

  lemma SeedOfLane(s: bv64)
    ensures Init(s).v0 ^ 0x736f6d6570736575 == s
  {
  }
}
