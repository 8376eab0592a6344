/** The streaming hash state (src/hash/siphash.c). C passes the state by value; here the caller's copy
    is the object that changes. */
module Sip {
  import opened SipSpec

  // The packed `_size` byte: five bits of data size above three bits of buffered bytes.

  function DataSize(size: nat): nat {
    size / 8
  }

  function Remaining(size: nat): (r: nat)
    ensures r < 8
  {
    size % 8
  }

  /** `set_data_size`: the new value is cut to a byte before and after its shift. */
  function SetDataSize(size: nat, n: nat): nat {
    size % 8 + n % 256 * 8 % 256
  }

  /** `set_remaining` */
  function SetRemaining(size: nat, n: nat): nat {
    size / 8 * 8 + n % 8
  }

  /** The length field of the packed byte. */
  function Kept(n: nat): nat {
    n % 32 * 8
  }

  /** The packed byte of a message of length `n`. */
  function Packed(n: nat): nat {
    Buffered(n) + Kept(n)
  }

  lemma Unpack(n: nat)
    ensures DataSize(Packed(n)) == n % 32 && Remaining(Packed(n)) == Buffered(n)
  {
  }

  lemma CutToByte(k: nat)
    ensures k % 256 * 8 % 256 == k % 32 * 8
  {
    var x := k % 256;
    var (q, r) := (x / 32, x % 32);
    assert x * 8 == q * 256 + r * 8 && 0 <= r * 8 < 256;
    assert k % 32 == r;
  }

  lemma LengthAdded(m: nat, n: nat)
    ensures (m % 32 + n) % 32 == (m + n) % 32
  {
  }

  /** Adding to the length keeps it modulo 32 and leaves the number of buffered bytes. */
  lemma SizeAdded(m: nat, n: nat)
    ensures SetDataSize(Packed(m), DataSize(Packed(m)) + n) == Buffered(m) + Kept(m + n)
  {
    hide DataSize, Packed, Buffered;
    Unpack(m);
    CutToByte(m % 32 + n);
    LengthAdded(m, n);
  }

  /** Setting the number of buffered bytes leaves the length. */
  lemma RemainingSet(low: nat, len: nat, r: nat)
    requires low < 8 && r < 8
    ensures Remaining(low + Kept(len)) == low
    ensures SetRemaining(low + Kept(len), r) == r + Kept(len)
  {
  }

  class SipState {
    var v0: bv64
    var v1: bv64
    var v2: bv64
    var v3: bv64
    var size: nat
    var buf: array<bv8>   // bytes past Remaining(size) are stale

    function Lanes(): Lanes
      reads this
    {
      SipSpec.Lanes(v0, v1, v2, v3)
    }

    /** The state of a hash of `m`: every full block absorbed, the rest in the buffer, whose other
        bytes may be anything. */
    ghost predicate Hashed(seed: bv64, m: seq<bv8>)
      reads this, buf
    {
      && buf.Length == 7
      && Lanes() == Blocks(Init(seed), m)
      && size == Packed(|m|)
      && buf[..Buffered(|m|)] == Tail(m)
    }

    /** `clod_sip64_init` */
    constructor (seed: bv64)
      ensures Hashed(seed, []) && fresh(buf)
    {
      var l := Init(seed);
      v0, v1, v2, v3 := l.v0, l.v1, l.v2, l.v3;
      size := 0;
      buf := new bv8[7];
    }

    /** The copy that a C function receives. */
    constructor Copy(s: SipState)
      requires s.buf.Length == 7
      ensures Lanes() == s.Lanes() && size == s.size && buf[..] == s.buf[..] && fresh(buf)
    {
      v0, v1, v2, v3 := s.v0, s.v1, s.v2, s.v3;
      size := s.size;
      buf := new bv8[7](i requires 0 <= i < 7 reads s, s.buf => if s.buf.Length == 7 then s.buf[i] else 0);
    }

    method SipRound()
      modifies `v0, `v1, `v2, `v3
      ensures Lanes() == Round(old(Lanes()))
    {
      hide Plus, Xor, Rotl13, Rotl16, Rotl17, Rotl21, Rotl32;
      v0 := Plus(v0, v1);
      v1 := Rotl13(v1);
      v1 := Xor(v1, v0);
      v0 := Rotl32(v0);
      v2 := Plus(v2, v3);
      v3 := Rotl16(v3);
      v3 := Xor(v3, v2);
      v0 := Plus(v0, v3);
      v3 := Rotl21(v3);
      v3 := Xor(v3, v0);
      v2 := Plus(v2, v1);
      v1 := Rotl17(v1);
      v1 := Xor(v1, v2);
      v2 := Rotl32(v2);
    }

    method AbsorbWord(d: bv64)
      modifies `v0, `v1, `v2, `v3
      ensures Lanes() == Absorb(old(Lanes()), d)
    {
      hide Round, Xor;
      v3 := Xor(v3, d);
      SipRound();
      SipRound();
      v0 := Xor(v0, d);
    }

    /** `clod_sip64_add`: the caller's state stays as it is. */
    method Add(data: seq<bv8>, ghost seed: bv64, ghost m: seq<bv8>) returns (state: SipState)
      requires Hashed(seed, m)
      ensures fresh(state) && fresh(state.buf) && state.Hashed(seed, m + data)
    {
      hide Init, Blocks, Packed, Buffered, Tail;
      state := new SipState.Copy(this);
      assert state.buf[..Buffered(|m|)] == buf[..Buffered(|m|)];
      state.Extend(data, seed, m);
    }

    /** The body of `clod_sip64_add`. */
    method Extend(data: seq<bv8>, ghost seed: bv64, ghost m: seq<bv8>)
      requires Hashed(seed, m)
      modifies this, buf
      ensures Hashed(seed, m + data) && buf == old(buf)
    {
      hide Absorb, Read, Init, Blocks, DataSize, SetDataSize, Remaining, Tail, Buffered, Kept;
      if |data| == 0 {
        assert m + data == m;
        return;
      }
      Unpack(|m|);
      SizeAdded(|m|, |data|);
      var remaining := Remaining(size);
      size := SetDataSize(size, DataSize(size) + |data|);
      if remaining + |data| < 8 {
        NoNewBlock(Init(seed), m, data);
        Store(remaining, data, |m| + |data|);
        return;
      }
      var off := FillBlock(data, seed, m);
      off := AbsorbBlocks(data, off, seed, m);
      LastBytes(Init(seed), m, data, off);
      if off < |data| {
        Store(0, data[off..], |m| + |data|);
      }
    }

    /** The block loop. */
    method AbsorbBlocks(data: seq<bv8>, from: nat, ghost seed: bv64, ghost m: seq<bv8>) returns (off: nat)
      requires from <= |data| && Buffered(|m| + from) == 0
      requires Lanes() == Blocks(Init(seed), m + data[..from])
      modifies `v0, `v1, `v2, `v3
      ensures off <= |data| < off + 8 && Buffered(|m| + off) == 0
      ensures Lanes() == Blocks(Init(seed), m + data[..off])
    {
      hide Absorb, Read, Init, Blocks, Buffered;
      off := from;
      while off + 8 <= |data|
        invariant off <= |data| && Buffered(|m| + off) == 0
        invariant Lanes() == Blocks(Init(seed), m + data[..off])
      {
        NextBlock(Init(seed), m, data, off);
        AbsorbWord(Read(data[off..], 8));
        off := off + 8;
      }
    }

    /** Absorbs the buffered bytes together with the first new ones, and clears the buffer count. */
    method FillBlock(data: seq<bv8>, ghost seed: bv64, ghost m: seq<bv8>) returns (off: nat)
      requires buf.Length == 7 && Lanes() == Blocks(Init(seed), m) && buf[..Buffered(|m|)] == Tail(m)
      requires size == Buffered(|m|) + Kept(|m| + |data|) && Buffered(|m|) + |data| >= 8
      modifies `v0, `v1, `v2, `v3, `size
      ensures off <= |data| && Buffered(|m| + off) == 0
      ensures Lanes() == Blocks(Init(seed), m + data[..off]) && size == Kept(|m| + |data|)
    {
      hide Absorb, Read, Init, Blocks, SetRemaining, Remaining, Tail, Buffered, Kept;
      RemainingSet(Buffered(|m|), |m| + |data|, 0);
      var remaining := Remaining(size);
      off := 8 - remaining;
      var d;
      if remaining > 0 {
        d := ReadBuffered(remaining, data);
        size := SetRemaining(size, 0);
      } else {
        ReadWhole(data, Tail(m));
        d := Read(data, 8);
      }
      FirstBlock(Init(seed), m, data, off);
      AbsorbWord(d);
    }

    /** The word of the buffered bytes and the first new ones. */
    method ReadBuffered(remaining: nat, data: seq<bv8>) returns (d: bv64)
      requires buf.Length == 7 && 0 < remaining < 8 && remaining + |data| >= 8
      ensures d == Read(buf[..remaining] + data[..8 - remaining], 8)
    {
      hide Read, ShiftBytes, Or;
      ReadJoined(buf[..], remaining, data, 8 - remaining);
      assert buf[..][..remaining] == buf[..remaining];
      d := Read(buf[..], remaining);
      d := Or(d, ShiftBytes(Read(data, 8 - remaining), remaining));
    }

    /** Buffers bytes that do not fill a block behind the `at` bytes that are there. */
    method Store(at: nat, data: seq<bv8>, ghost length: nat)
      requires buf.Length == 7 && at + |data| < 8 && at + |data| == Buffered(length)
      requires size == at + Kept(length)
      modifies buf, `size
      ensures buf[..at + |data|] == old(buf[..at]) + data && size == Packed(length)
    {
      hide SetRemaining, Remaining, Buffered, Kept;
      RemainingSet(at, length, at + |data|);
      forall i | 0 <= i < |data| {
        buf[at + i] := data[i];
      }
      size := SetRemaining(size, at + |data|);
    }

    /** `clod_sip64_finalise`: it reads no stale byte, and the caller's state stays as it is. */
    method Finalise(ghost seed: bv64, ghost m: seq<bv8>) returns (hash: bv64)
      requires Hashed(seed, m)
      ensures hash == SipHash(seed, m)
    {
      hide Init, Blocks, Round, Xor, Or, TopByte, Read, Packed, DataSize, Remaining, Absorb;
      Unpack(|m|);
      var state := new SipState.Copy(this);
      var d := Read(state.buf[..], Remaining(state.size));
      d := Or(d, TopByte(DataSize(state.size)));
      var rest := Buffered(|m|);
      assert state.buf[..] == Tail(m) + buf[rest..];
      ReadPrefix(Tail(m), buf[rest..], rest);
      state.AbsorbWord(d);
      state.v2 := Xor(state.v2, 0xee);
      state.SipRound();
      state.SipRound();
      state.SipRound();
      state.SipRound();
      return Xor(Xor(Xor(state.v0, state.v1), state.v2), state.v3);
    }
  }

  function Flatten(chunks: seq<seq<bv8>>): seq<bv8> {
    if chunks == [] then [] else Flatten(chunks[..|chunks| - 1]) + chunks[|chunks| - 1]
  }

  /** However a message is cut into chunks, empty ones included, the hash is that of the message. */
  method HashChunks(seed: bv64, chunks: seq<seq<bv8>>) returns (hash: bv64)
    ensures hash == SipHash(seed, Flatten(chunks))
  {
    hide SipHash, Init, Blocks;
    var state := new SipState(seed);
    for i := 0 to |chunks|
      invariant state.Hashed(seed, Flatten(chunks[..i]))
    {
      assert chunks[..i + 1][..i] == chunks[..i];
      state := state.Add(chunks[i], seed, Flatten(chunks[..i]));
    }
    assert chunks[..|chunks|] == chunks;
    hash := state.Finalise(seed, Flatten(chunks));
  }
}
