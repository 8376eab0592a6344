/** The streaming SipHash variant as a function of seed and message. */
module SipSpec {

  datatype Lanes = Lanes(v0: bv64, v1: bv64, v2: bv64, v3: bv64)

  /** `clod_sip64_init` */
  function Init(seed: bv64): Lanes {
    Lanes(0x736f6d6570736575 ^ seed, 0x646f72616e646f6d ^ seed, 0x6c7967656e657261 ^ seed, 0x7465646279746573 ^ seed)
  }

  // Word operations, named so that proofs can leave them uninterpreted.

  function Plus(a: bv64, b: bv64): bv64 {
    a + b
  }

  function Xor(a: bv64, b: bv64): bv64 {
    a ^ b
  }

  function Or(a: bv64, b: bv64): bv64 {
    a | b
  }

  function Rotl13(w: bv64): bv64 { (w << 13) | (w >> 51) }

  function Rotl16(w: bv64): bv64 { (w << 16) | (w >> 48) }

  function Rotl17(w: bv64): bv64 { (w << 17) | (w >> 47) }

  function Rotl21(w: bv64): bv64 { (w << 21) | (w >> 43) }

  function Rotl32(w: bv64): bv64 { (w << 32) | (w >> 32) }

  function Up(w: bv64): bv64 {
    w << 8
  }

  function Round(l: Lanes): Lanes {
    var a0 := Plus(l.v0, l.v1);
    var a1 := Xor(Rotl13(l.v1), a0);
    var a2 := Plus(l.v2, l.v3);
    var a3 := Xor(Rotl16(l.v3), a2);
    var b0 := Plus(Rotl32(a0), a3);
    var b2 := Plus(a2, a1);
    Lanes(b0, Xor(Rotl17(a1), b2), Rotl32(b2), Xor(Rotl21(a3), b0))
  }

  /** Two rounds around the addition of a message word. */
  function Absorb(l: Lanes, d: bv64): Lanes {
    var r := Round(Round(l.(v3 := Xor(l.v3, d))));
    r.(v0 := Xor(r.v0, d))
  }

  /** A word shifted left by `n` bytes. */
  function ShiftBytes(w: bv64, n: nat): bv64
    decreases n
  {
    if n == 0 then w else ShiftBytes(Up(w), n - 1)
  }

  /** `read_uint64`: the first `n` bytes as a little-endian number; the cases of the C switch fall
      through from the highest byte to the lowest. */
  function Read(data: seq<bv8>, n: nat): bv64
    requires n <= |data|
  {
    if n == 0 then 0 else Or(ShiftBytes(data[n - 1] as bv64, n - 1), Read(data, n - 1))
  }

  /** All full 8-byte blocks of the message absorbed. */
  function Blocks(l: Lanes, m: seq<bv8>): Lanes
    decreases |m|
  {
    if |m| < 8 then l else Blocks(Absorb(l, Read(m, 8)), m[8..])
  }

  /** How many bytes of a message of length `n` are behind its last full block. */
  function Buffered(n: nat): (r: nat)
    ensures r < 8 && r <= n
  {
    n % 8
  }

  /** The bytes behind the last full block. */
  function Tail(m: seq<bv8>): (r: seq<bv8>)
    ensures |r| == Buffered(|m|)
  {
    m[|m| - Buffered(|m|)..]
  }

  function Finish(l: Lanes, d: bv64): bv64 {
    var a := Absorb(l, d);
    var r := Round(Round(Round(Round(a.(v2 := Xor(a.v2, 0xee))))));
    Xor(Xor(Xor(r.v0, r.v1), r.v2), r.v3)
  }

  /** A number of at most one byte, moved to the top byte. */
  function TopByte(n: nat): bv64
    requires n < 256
  {
    (n as bv64) << 56
  }

  /** The last word: the bytes behind the last block, and the message length modulo 32 on top. */
  function LastWord(tail: seq<bv8>, length: nat): bv64
    requires |tail| < 8
  {
    Or(Read(tail, |tail|), TopByte(length % 32))
  }

  /** The hash of a message. */
  function SipHash(seed: bv64, m: seq<bv8>): bv64 {
    Finish(Blocks(Init(seed), m), LastWord(Tail(m), |m|))
  }

  lemma {:induction false} BlocksConcat(l: Lanes, a: seq<bv8>, b: seq<bv8>)
    requires Buffered(|a|) == 0
    ensures Blocks(l, a + b) == Blocks(Blocks(l, a), b)
    decreases |a|
  {
    hide Absorb, Read;
    if a == [] {
      assert a + b == b;
    } else {
      ReadPrefix(a, b, 8);
      assert (a + b)[8..] == a[8..] + b;
      BlocksConcat(Absorb(l, Read(a, 8)), a[8..], b);
    }
  }

  lemma {:induction false} ReadPrefix(a: seq<bv8>, b: seq<bv8>, n: nat)
    requires n <= |a|
    ensures Read(a + b, n) == Read(a, n)
  {
    hide ShiftBytes, Or;
    if n > 0 {
      ReadPrefix(a, b, n - 1);
    }
  }

  lemma ReadWhole(data: seq<bv8>, tail: seq<bv8>)
    requires |data| >= 8 && |tail| == 0
    ensures Read(data, 8) == Read(tail + data[..8], 8)
  {
    hide Read;
    ReadPrefix(data[..8], data[8..], 8);
    assert data == data[..8] + data[8..] && tail + data[..8] == data[..8];
  }

  lemma BlocksIgnoreTail(l: Lanes, m: seq<bv8>)
    ensures Blocks(l, m) == Blocks(l, m[..|m| - Buffered(|m|)])
  {
    hide Absorb, Read;
    var full := m[..|m| - Buffered(|m|)];
    assert m == full + Tail(m);
    BlocksConcat(l, full, Tail(m));
  }

  lemma UpOr(a: bv64, b: bv64)
    ensures Up(Or(a, b)) == Or(Up(a), Up(b))
  {
  }

  lemma UpZero()
    ensures Up(0) == 0
  {
  }

  lemma OrZero(a: bv64)
    ensures Or(a, 0) == a
  {
  }

  lemma OrSwap(a: bv64, b: bv64, c: bv64)
    ensures Or(a, Or(b, c)) == Or(b, Or(a, c))
  {
  }

  lemma {:induction false} ShiftOr(a: bv64, b: bv64, n: nat)
    ensures ShiftBytes(Or(a, b), n) == Or(ShiftBytes(a, n), ShiftBytes(b, n))
    decreases n
  {
    hide Up, Or;
    if n > 0 {
      UpOr(a, b);
      ShiftOr(Up(a), Up(b), n - 1);
    }
  }

  lemma {:induction false} ShiftShift(w: bv64, n: nat, k: nat)
    ensures ShiftBytes(ShiftBytes(w, k), n) == ShiftBytes(w, n + k)
    decreases k
  {
    hide Up;
    if k > 0 {
      ShiftShift(Up(w), n, k - 1);
    }
  }

  lemma {:induction false} ShiftZero(n: nat)
    ensures ShiftBytes(0, n) == 0
  {
    hide Up;
    if n > 0 {
      UpZero();
      ShiftZero(n - 1);
    }
  }

  /** A word put together from `n` buffered bytes and `k` bytes of new data is the word of those bytes
      in a row. */
  lemma {:induction false} ReadJoined(buf: seq<bv8>, n: nat, data: seq<bv8>, k: nat)
    requires n <= |buf| && k <= |data|
    ensures Or(Read(buf, n), ShiftBytes(Read(data, k), n)) == Read(buf[..n] + data[..k], n + k)
    decreases k
  {
    hide ShiftBytes, Or;
    var j := buf[..n] + data[..k];
    if k == 0 {
      ShiftZero(n);
      OrZero(Read(buf, n));
      assert j == buf[..n] && buf == buf[..n] + buf[n..];
      ReadPrefix(buf[..n], buf[n..], n);
    } else {
      var last := data[k - 1] as bv64;
      ReadJoined(buf, n, data, k - 1);
      ShiftOr(ShiftBytes(last, k - 1), Read(data, k - 1), n);
      ShiftShift(last, n, k - 1);
      OrSwap(Read(buf, n), ShiftBytes(last, n + k - 1), ShiftBytes(Read(data, k - 1), n));
      var shorter := buf[..n] + data[..k - 1];
      assert j == shorter + [data[k - 1]];
      ReadPrefix(shorter, [data[k - 1]], n + k - 1);
    }
  }

  // ---- adding data to a partly absorbed message ----

  lemma NoNewBlock(l: Lanes, m: seq<bv8>, data: seq<bv8>)
    requires Buffered(|m|) + |data| < 8
    ensures Blocks(l, m + data) == Blocks(l, m) && Tail(m + data) == Tail(m) + data
    ensures Buffered(|m| + |data|) == Buffered(|m|) + |data|
  {
    hide Absorb, Read;
    assert (m + data)[..|m| - Buffered(|m|)] == m[..|m| - Buffered(|m|)];
    BlocksIgnoreTail(l, m);
    BlocksIgnoreTail(l, m + data);
  }

  lemma OneBlock(l: Lanes, block: seq<bv8>)
    requires |block| == 8
    ensures Blocks(l, block) == Absorb(l, Read(block, 8))
  {
  }

  /** The buffered bytes and the first new ones fill a block. */
  lemma FirstBlock(l: Lanes, m: seq<bv8>, data: seq<bv8>, k: nat)
    requires k == 8 - Buffered(|m|) <= |data|
    ensures Absorb(Blocks(l, m), Read(Tail(m) + data[..k], 8)) == Blocks(l, m + data[..k])
    ensures Buffered(|m| + k) == 0
  {
    hide Absorb, Read, Blocks;
    var full := m[..|m| - Buffered(|m|)];
    BlocksIgnoreTail(l, m);
    assert m + data[..k] == full + (Tail(m) + data[..k]);
    BlocksConcat(l, full, Tail(m) + data[..k]);
    OneBlock(Blocks(l, full), Tail(m) + data[..k]);
  }

  lemma NextBlock(l: Lanes, m: seq<bv8>, data: seq<bv8>, off: nat)
    requires off + 8 <= |data| && Buffered(|m| + off) == 0
    ensures Absorb(Blocks(l, m + data[..off]), Read(data[off..], 8)) == Blocks(l, m + data[..off + 8])
    ensures Buffered(|m| + off + 8) == 0
  {
    hide Absorb, Read, Blocks;
    var block := data[off..off + 8];
    assert data[off..] == block + data[off + 8..];
    ReadPrefix(block, data[off + 8..], 8);
    assert m + data[..off + 8] == (m + data[..off]) + block;
    BlocksConcat(l, m + data[..off], block);
    OneBlock(Blocks(l, m + data[..off]), block);
  }

  lemma LastBytes(l: Lanes, m: seq<bv8>, data: seq<bv8>, off: nat)
    requires off <= |data| < off + 8 && Buffered(|m| + off) == 0
    ensures Blocks(l, m + data) == Blocks(l, m + data[..off]) && Tail(m + data) == data[off..]
    ensures Buffered(|m| + |data|) == |data| - off
  {
    hide Absorb, Read;
    assert m + data == (m + data[..off]) + data[off..];
    NoNewBlock(l, m + data[..off], data[off..]);
  }
}
