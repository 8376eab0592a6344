/** The options of `clod_table_create`, and the callbacks that stand in for missing ones. */
module TableDefaults {
  import Arith
  import SipSpec
  import opened TableSpec
  import opened Wrappers

  /** `struct clod_table_opts` as the caller fills it in; either callback may be null. */
  datatype Given = Given(
    minCapacity: nat,
    hash: Option<(nat, Pointer, nat) -> nat>,
    cmp: Option<(Pointer, Pointer, nat) -> int>)

  /** The bytes that stand at an address. */
  type Content = (Pointer, nat) -> seq<bv8>

  /** `memcmp`: the sign of the first difference. */
  function MemCmp(a: seq<bv8>, b: seq<bv8>): int
    requires |a| == |b|
    decreases |a|
  {
    if a == [] then 0
    else if a[0] < b[0] then -1
    else if a[0] > b[0] then 1
    else MemCmp(a[1..], b[1..])
  }

  function Compare(content: Content, a: Pointer, b: Pointer, n: nat): int {
    var (x, y) := (content(a, n), content(b, n));
    if |x| == |y| then MemCmp(x, y) else 1
  }

  /** `default_hash` */
  function DefaultHash(content: Content, seed: nat, p: Pointer, n: nat): nat {
    SipSpec.SipHash((seed % Arith.UINT64_SIZE) as bv64, content(p, n)) as nat
  }

  /** The options that the table gets: `apply_default_opts` after a copy of the caller's, or of zeros. */
  function WithDefaults(given: Option<Given>, content: Content): Opts {
    var g := if given.Some? then given.value else Given(0, None, None);
    Opts(g.minCapacity,
         if g.hash.Some? then g.hash.value else (seed: nat, p: Pointer, n: nat) => DefaultHash(content, seed, p, n),
         if g.cmp.Some? then g.cmp.value else (a: Pointer, b: Pointer, n: nat) => Compare(content, a, b, n))
  }

  lemma {:induction false} MemCmpZero(a: seq<bv8>, b: seq<bv8>)
    requires |a| == |b|
    ensures MemCmp(a, b) == 0 <==> a == b
    decreases |a|
  {
    if a != [] {
      MemCmpZero(a[1..], b[1..]);
      assert a == [a[0]] + a[1..] && b == [b[0]] + b[1..];
    }
  }

  lemma CompareZero(content: Content, a: Pointer, b: Pointer, n: nat)
    ensures Compare(content, a, b, n) == 0 <==> content(a, n) == content(b, n)
  {
    if |content(a, n)| == |content(b, n)| {
      MemCmpZero(content(a, n), content(b, n));
    }
  }

  /** `a` comes before `b`: they agree up to a byte that is smaller in `a`. */
  ghost predicate Precedes(a: seq<bv8>, b: seq<bv8>) {
    exists i :: 0 <= i < |a| && i < |b| && a[..i] == b[..i] && a[i] < b[i]
  }

  lemma {:induction false} MemCmpSign(a: seq<bv8>, b: seq<bv8>)
    requires |a| == |b|
    ensures MemCmp(a, b) < 0 <==> Precedes(a, b)
    decreases |a|
  {
    if a != [] {
      MemCmpSign(a[1..], b[1..]);
      if a[0] == b[0] {
        PrecedesLater(a, b);
      } else if a[0] < b[0] {
        assert a[..0] == b[..0];
      } else {
        FirstDecides(a, b);
      }
    }
  }

  lemma PrecedesLater(a: seq<bv8>, b: seq<bv8>)
    requires |a| == |b| > 0 && a[0] == b[0]
    ensures Precedes(a, b) <==> Precedes(a[1..], b[1..])
  {
    if Precedes(a, b) {
      var i :| 0 <= i < |a| && a[..i] == b[..i] && a[i] < b[i];
      assert a[1..][..i - 1] == a[..i][1..] && b[1..][..i - 1] == b[..i][1..];
    }
    if Precedes(a[1..], b[1..]) {
      var i :| 0 <= i < |a[1..]| && a[1..][..i] == b[1..][..i] && a[1..][i] < b[1..][i];
      assert a[..i + 1] == [a[0]] + a[1..][..i] && b[..i + 1] == [b[0]] + b[1..][..i];
    }
  }

  lemma FirstDecides(a: seq<bv8>, b: seq<bv8>)
    requires |a| == |b| > 0 && a[0] > b[0]
    ensures !Precedes(a, b)
  {
    forall i | 0 <= i < |a| && a[i] < b[i]
      ensures a[..i] != b[..i]
    {
      assert a[..i][0] == a[0] && b[..i][0] == b[0];
    }
  }

  /** The options are the caller's: a callback that is given is used as it is, a missing one is the default
      whatever the other is, and null options ask for no capacity. */
  ghost predicate Configured(given: Option<Given>, content: Content, opts: Opts) {
    && opts.minCapacity == (if given.Some? then given.value.minCapacity else 0)
    && (given.Some? && given.value.hash.Some? ==> opts.hash == given.value.hash.value)
    && (given.Some? && given.value.cmp.Some? ==> opts.cmp == given.value.cmp.value)
    && (given.None? || given.value.hash.None? ==>
          forall seed: nat, p: Pointer, n: nat ::
            opts.hash(seed, p, n) == SipSpec.SipHash((seed % 0x1_0000_0000_0000_0000) as bv64, content(p, n)) as nat)
    && (given.None? || given.value.cmp.None? ==>
          forall a: Pointer, b: Pointer, n: nat :: |content(a, n)| == |content(b, n)| ==>
            && (opts.cmp(a, b, n) == 0 <==> content(a, n) == content(b, n))
            && (opts.cmp(a, b, n) < 0 <==> Precedes(content(a, n), content(b, n))))
  }

  lemma DefaultsConfigured(given: Option<Given>, content: Content)
    ensures Configured(given, content, WithDefaults(given, content))
  {
    hide SipSpec.SipHash, Compare, Precedes;
    forall a: Pointer, b: Pointer, n: nat | |content(a, n)| == |content(b, n)|
      ensures Compare(content, a, b, n) == 0 <==> content(a, n) == content(b, n)
      ensures Compare(content, a, b, n) < 0 <==> Precedes(content(a, n), content(b, n))
    {
      CompareMeans(content, a, b, n);
    }
  }

  lemma CompareMeans(content: Content, a: Pointer, b: Pointer, n: nat)
    requires |content(a, n)| == |content(b, n)|
    ensures Compare(content, a, b, n) == 0 <==> content(a, n) == content(b, n)
    ensures Compare(content, a, b, n) < 0 <==> Precedes(content(a, n), content(b, n))
  {
    hide MemCmp, Precedes;
    CompareZero(content, a, b, n);
    MemCmpSign(content(a, n), content(b, n));
  }

  /** The default callbacks meet the table's demands: keys are equal if their bytes are, and then their
      hashes agree under every seed. */
  lemma DefaultsAreLawful(given: Option<Given>, content: Content)
    requires given.Some? ==> given.value.hash.None? && given.value.cmp.None?
    ensures Lawful(WithDefaults(given, content))
    ensures forall a, b, n :: WithDefaults(given, content).cmp(a, b, n) == 0 <==> content(a, n) == content(b, n)
  {
    hide SipSpec.SipHash, Compare;
    forall a, b, n
      ensures Compare(content, a, b, n) == 0 <==> content(a, n) == content(b, n)
    {
      CompareZero(content, a, b, n);
    }
  }
}
