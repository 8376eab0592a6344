/** The slots of the hash table as values: keys, linear probing, and the map they represent. */
module TableSpec {
  import opened Wrappers

  /** A caller's element or key: a non-null address. What stands at the address is the callbacks'
      business and does not change while the table holds it. */
  type Pointer = p: int | 0 < p witness 1

  /** `struct clod_table_opts`. `cmp` returns 0 for equal keys, as memcmp does. */
  datatype Opts = Opts(minCapacity: nat, hash: (nat, Pointer, nat) -> nat, cmp: (Pointer, Pointer, nat) -> int)

  datatype Slot = Slot(element: Pointer, keySize: nat)

  /** What the table demands of its callbacks: `cmp` decides an equivalence for every key size, and
      equal keys have equal hashes under every seed. */
  ghost predicate Lawful(o: Opts) {
    && (forall a, n :: o.cmp(a, a, n) == 0)
    && (forall a, b, n :: o.cmp(a, b, n) == 0 ==> o.cmp(b, a, n) == 0)
    && (forall a, b, c, n :: o.cmp(a, b, n) == 0 && o.cmp(b, c, n) == 0 ==> o.cmp(a, c, n) == 0)
    && (forall a, b, n, seed :: o.cmp(a, b, n) == 0 ==> o.hash(seed, a, n) == o.hash(seed, b, n))
  }

  predicate SameKey(o: Opts, s: Slot, t: Slot) {
    s.keySize == t.keySize && o.cmp(s.element, t.element, s.keySize) == 0
  }

  /** A key as a caller sees it: its size and everything that compares equal to it. */
  datatype Key = Key(size: nat, equals: iset<Pointer>)

  ghost function KeyOf(o: Opts, s: Slot): Key {
    Key(s.keySize, iset e: Pointer | o.cmp(s.element, e, s.keySize) == 0)
  }

  lemma KeysAgree(o: Opts, s: Slot, t: Slot)
    requires Lawful(o)
    ensures KeyOf(o, s) == KeyOf(o, t) <==> SameKey(o, s, t)
  {
    if KeyOf(o, s) == KeyOf(o, t) {
      assert t.element in KeyOf(o, t).equals;
    }
    if SameKey(o, s, t) {
      forall e: Pointer
        ensures e in KeyOf(o, s).equals <==> e in KeyOf(o, t).equals
      {
      }
    }
  }

  // ---- control bytes ----

  const EMPTY := 0
  const REMOVED := 1

  /** `CTL_OCCUPIED`: the top bit, and the low seven bits of the hash. */
  function Tag(hash: nat): nat {
    128 + hash % 128
  }

  datatype Kind = Empty | Removed | Occupied

  function KindOf(ctl: nat): Kind {
    if ctl == EMPTY then Empty else if ctl >= 128 then Occupied else Removed
  }

  function Count(ctl: seq<nat>, k: Kind): nat {
    if ctl == [] then 0
    else Count(ctl[..|ctl| - 1], k) + if KindOf(ctl[|ctl| - 1]) == k then 1 else 0
  }

  lemma {:induction false} CountUpdate(ctl: seq<nat>, i: nat, c: nat, k: Kind)
    requires i < |ctl|
    ensures Count(ctl[i := c], k) + (if KindOf(ctl[i]) == k then 1 else 0)
         == Count(ctl, k) + (if KindOf(c) == k then 1 else 0)
  {
    var n := |ctl| - 1;
    if i < n {
      assert ctl[i := c][..n] == ctl[..n][i := c];
      CountUpdate(ctl[..n], i, c, k);
    } else {
      assert ctl[i := c][..n] == ctl[..n];
    }
  }

  lemma {:induction false} CountTotal(ctl: seq<nat>)
    ensures Count(ctl, Empty) + Count(ctl, Removed) + Count(ctl, Occupied) == |ctl|
  {
    if ctl != [] {
      CountTotal(ctl[..|ctl| - 1]);
    }
  }

  lemma {:induction false} CountZero(ctl: seq<nat>, k: Kind)
    ensures Count(ctl, k) == 0 <==> forall i :: 0 <= i < |ctl| ==> KindOf(ctl[i]) != k
  {
    if ctl != [] {
      CountZero(ctl[..|ctl| - 1], k);
      assert forall i :: 0 <= i < |ctl| - 1 ==> ctl[..|ctl| - 1][i] == ctl[i];
    }
  }

  // ---- slots ----

  /** The table's memory: control bytes and element slots, hashed under `seed`. */
  datatype Memory = Memory(opts: Opts, seed: nat, ctl: seq<nat>, slots: seq<Option<Slot>>)
  {
    /** `get_position`: the slot where the search for a key starts, and the key's control byte. */
    function Home(s: Slot): nat
      requires |ctl| > 0
    {
      opts.hash(seed, s.element, s.keySize) / 128 % |ctl|
    }

    function TagOf(s: Slot): nat {
      Tag(opts.hash(seed, s.element, s.keySize))
    }

    predicate Live(i: int) {
      0 <= i < |ctl| == |slots| && KindOf(ctl[i]) == Occupied && slots[i].Some?
    }

    /** Slot `i` holds the key of `s`. */
    predicate Holds(i: int, s: Slot) {
      Live(i) && SameKey(opts, slots[i].value, s)
    }

    /** How many steps a search that starts at `home` takes to reach slot `i`. */
    function Distance(home: int, i: int): nat
      requires 0 <= home < |ctl| && 0 <= i < |ctl|
    {
      if home <= i then i - home else i + |ctl| - home
    }

    /** A search for the key of `s` looks at slot `j` before slot `i`. */
    predicate Before(s: Slot, j: int, i: int)
      requires 0 <= j < |ctl| && 0 <= i < |ctl|
    {
      Distance(Home(s), j) < Distance(Home(s), i)
    }

    /** The linear-probing invariant: control bytes have one of their three forms, every occupied slot has
        its key's control byte, no empty slot lies cyclically between a key's home and its slot, and no
        two slots hold equal keys. */
    ghost predicate Probing() {
      && |slots| == |ctl|
      && (forall i :: 0 <= i < |ctl| ==> ctl[i] == EMPTY || ctl[i] == REMOVED || KindOf(ctl[i]) == Occupied)
      && (forall i :: 0 <= i < |ctl| && KindOf(ctl[i]) == Occupied ==>
            slots[i].Some? && ctl[i] == TagOf(slots[i].value))
      && (forall i, j :: Live(i) && 0 <= j < |ctl| && Before(slots[i].value, j, i) ==> KindOf(ctl[j]) != Empty)
      && (forall i, j :: Live(i) && Live(j) && SameKey(opts, slots[i].value, slots[j].value) ==> i == j)
    }

    /** The first slot on the search for the key of `s` that is not occupied. */
    ghost predicate FirstFree(s: Slot, a: int) {
      && 0 <= a < |ctl|
      && KindOf(ctl[a]) != Occupied
      && forall j :: 0 <= j < |ctl| && Before(s, j, a) ==> KindOf(ctl[j]) == Occupied
    }

    /** A new key that is the key of `s` would take a slot that is empty, not one that was removed. */
    ghost predicate TakesEmpty(s: Slot) {
      exists a :: FirstFree(s, a) && ctl[a] == EMPTY
    }

    /** The slots hold exactly the entries of the map. */
    ghost predicate Represents(m: map<Key, Pointer>) {
      && (forall i :: Live(i) ==>
            KeyOf(opts, slots[i].value) in m && m[KeyOf(opts, slots[i].value)] == slots[i].value.element)
      && (forall k :: k in m ==> exists i :: Live(i) && KeyOf(opts, slots[i].value) == k)
    }
  }

  /** How a hash is split: its low seven bits, with the top bit set, are the control byte, and the rest of
      it picks the first slot. */
  lemma HashSplit(mem: Memory, s: Slot)
    requires |mem.ctl| > 0
    ensures var hash := mem.opts.hash(mem.seed, s.element, s.keySize);
      128 <= mem.TagOf(s) < 256
      && exists q: nat :: hash == 128 * q + (mem.TagOf(s) - 128) && mem.Home(s) == q % |mem.ctl|
  {
    var hash := mem.opts.hash(mem.seed, s.element, s.keySize);
    var q: nat := hash / 128;
    assert hash == 128 * q + (mem.TagOf(s) - 128);
  }

  // ---- what the table's writes keep ----

  function Occupy(mem: Memory, a: int, s: Slot): Memory
    requires 0 <= a < |mem.ctl| == |mem.slots|
  {
    mem.(ctl := mem.ctl[a := mem.TagOf(s)], slots := mem.slots[a := Some(s)])
  }

  function Vacate(mem: Memory, i: int): Memory
    requires mem.Live(i)
  {
    mem.(ctl := mem.ctl[i := REMOVED])
  }

  function Overwrite(mem: Memory, i: int, s: Slot): Memory
    requires mem.Live(i)
  {
    mem.(slots := mem.slots[i := Some(s)])
  }

  /** What an insertion writes: nothing or the new element if the key is there, otherwise the first free
      slot of its search. */
  ghost predicate Inserted(mem: Memory, replace: bool, s: Slot, next: Memory) {
    || (exists i :: mem.Holds(i, s) && next == if replace then Overwrite(mem, i, s) else mem)
    || ((forall i :: !mem.Holds(i, s)) && |mem.ctl| == |mem.slots|
        && exists a :: mem.FirstFree(s, a) && next == Occupy(mem, a, s))
  }

  /** What a deletion writes: a tombstone, if the key is there. */
  ghost predicate Deleted(mem: Memory, s: Slot, next: Memory) {
    || (exists i :: mem.Holds(i, s) && next == Vacate(mem, i))
    || ((forall i :: !mem.Holds(i, s)) && next == mem)
  }

  lemma SameKeySameHome(mem: Memory, s: Slot, t: Slot)
    requires Lawful(mem.opts) && |mem.ctl| > 0 && SameKey(mem.opts, s, t)
    ensures mem.Home(s) == mem.Home(t) && mem.TagOf(s) == mem.TagOf(t)
  {
  }

  lemma OccupyKeepsProbing(mem: Memory, a: int, s: Slot)
    requires Lawful(mem.opts) && mem.Probing() && mem.FirstFree(s, a)
    requires forall i :: !mem.Holds(i, s)
    ensures Occupy(mem, a, s).Probing()
  {
    var r := Occupy(mem, a, s);
    forall i, j | r.Live(i) && 0 <= j < |r.ctl| && r.Before(r.slots[i].value, j, i)
      ensures KindOf(r.ctl[j]) != Empty
    {
      if i == a {
        assert mem.Before(s, j, a);
      } else {
        assert mem.Live(i) && mem.Before(mem.slots[i].value, j, i);
      }
    }
    forall i, j | r.Live(i) && r.Live(j) && SameKey(r.opts, r.slots[i].value, r.slots[j].value)
      ensures i == j
    {
      assert i != a ==> mem.Live(i) && !mem.Holds(i, s);
      assert j != a ==> mem.Live(j) && !mem.Holds(j, s);
    }
  }

  lemma OccupyRepresents(mem: Memory, a: int, s: Slot, m: map<Key, Pointer>)
    requires Lawful(mem.opts) && mem.Represents(m)
    requires 0 <= a < |mem.ctl| == |mem.slots| && KindOf(mem.ctl[a]) != Occupied
    requires forall i :: !mem.Holds(i, s)
    ensures KeyOf(mem.opts, s) !in m
    ensures Occupy(mem, a, s).Represents(m[KeyOf(mem.opts, s) := s.element])
  {
    hide KeyOf;
    var r := Occupy(mem, a, s);
    var key := KeyOf(mem.opts, s);
    forall i | mem.Live(i)
      ensures KeyOf(mem.opts, mem.slots[i].value) != key && r.Live(i) && r.slots[i] == mem.slots[i]
    {
      KeysAgree(mem.opts, mem.slots[i].value, s);
      assert !mem.Holds(i, s);
    }
    assert r.Live(a);
    var m' := m[key := s.element];
    forall k | k in m'
      ensures exists i :: r.Live(i) && KeyOf(r.opts, r.slots[i].value) == k
    {
      if k != key {
        var i :| mem.Live(i) && KeyOf(mem.opts, mem.slots[i].value) == k;
        assert r.Live(i);
      }
    }
  }

  lemma VacateKeepsProbing(mem: Memory, i: int)
    requires mem.Probing() && mem.Live(i)
    ensures Vacate(mem, i).Probing()
  {
    var r := Vacate(mem, i);
    assert forall j :: r.Live(j) ==> mem.Live(j) && j != i;
    forall j, k | r.Live(j) && 0 <= k < |r.ctl| && r.Before(r.slots[j].value, k, j)
      ensures KindOf(r.ctl[k]) != Empty
    {
      assert mem.Before(mem.slots[j].value, k, j);
    }
  }

  lemma VacateRepresents(mem: Memory, i: int, m: map<Key, Pointer>)
    requires Lawful(mem.opts) && mem.Probing() && mem.Represents(m) && mem.Live(i)
    ensures Vacate(mem, i).Represents(m - {KeyOf(mem.opts, mem.slots[i].value)})
  {
    hide KeyOf;
    var r := Vacate(mem, i);
    var key := KeyOf(mem.opts, mem.slots[i].value);
    forall j | r.Live(j)
      ensures mem.Live(j) && KeyOf(r.opts, r.slots[j].value) != key
    {
      KeysAgree(mem.opts, mem.slots[j].value, mem.slots[i].value);
    }
    forall k | k in m - {key}
      ensures exists j :: r.Live(j) && KeyOf(r.opts, r.slots[j].value) == k
    {
      var j :| mem.Live(j) && KeyOf(mem.opts, mem.slots[j].value) == k;
      assert r.Live(j);
    }
  }

  lemma OverwriteKeepsProbing(mem: Memory, i: int, s: Slot)
    requires Lawful(mem.opts) && mem.Probing() && mem.Holds(i, s)
    ensures Overwrite(mem, i, s).Probing()
  {
    var r := Overwrite(mem, i, s);
    SameKeySameHome(mem, mem.slots[i].value, s);
    assert forall j :: r.Live(j) <==> mem.Live(j);
    forall j, k | r.Live(j) && 0 <= k < |r.ctl| && r.Before(r.slots[j].value, k, j)
      ensures KindOf(r.ctl[k]) != Empty
    {
      assert mem.Before(mem.slots[j].value, k, j);
    }
    forall j, k | r.Live(j) && r.Live(k) && SameKey(r.opts, r.slots[j].value, r.slots[k].value)
      ensures j == k
    {
      assert mem.Live(j) && mem.Live(k) && SameKey(mem.opts, mem.slots[j].value, mem.slots[k].value);
    }
  }

  lemma OverwriteRepresents(mem: Memory, i: int, s: Slot, m: map<Key, Pointer>)
    requires Lawful(mem.opts) && mem.Probing() && mem.Represents(m) && mem.Holds(i, s)
    ensures KeyOf(mem.opts, s) in m && m[KeyOf(mem.opts, s)] == mem.slots[i].value.element
    ensures Overwrite(mem, i, s).Represents(m[KeyOf(mem.opts, s) := s.element])
  {
    hide KeyOf;
    var r := Overwrite(mem, i, s);
    var key := KeyOf(mem.opts, s);
    KeysAgree(mem.opts, mem.slots[i].value, s);
    forall j | r.Live(j)
      ensures mem.Live(j) && (j != i ==> KeyOf(r.opts, r.slots[j].value) != key)
    {
      assert mem.Live(j);
      KeysAgree(mem.opts, mem.slots[j].value, mem.slots[i].value);
    }
    var m' := m[key := s.element];
    forall k | k in m'
      ensures exists j :: r.Live(j) && KeyOf(r.opts, r.slots[j].value) == k
    {
      if k == key {
        assert r.Live(i);
      } else {
        var j :| mem.Live(j) && KeyOf(mem.opts, mem.slots[j].value) == k;
        assert r.Live(j);
      }
    }
  }

  /** A key is in the map exactly if some slot holds it. */
  lemma HoldsIffMapped(mem: Memory, s: Slot, m: map<Key, Pointer>)
    requires Lawful(mem.opts) && mem.Represents(m)
    ensures KeyOf(mem.opts, s) in m <==> exists i :: mem.Holds(i, s)
    ensures forall i :: mem.Holds(i, s) ==>
      KeyOf(mem.opts, s) in m && m[KeyOf(mem.opts, s)] == mem.slots[i].value.element
  {
    forall i | mem.Live(i)
      ensures KeyOf(mem.opts, mem.slots[i].value) == KeyOf(mem.opts, s) <==> mem.Holds(i, s)
    {
      KeysAgree(mem.opts, mem.slots[i].value, s);
    }
  }

  /** What a finished search knows about the map. */
  lemma SearchAnswers(mem: Memory, m: map<Key, Pointer>, elems: nat, deleted: nat, s: Slot, existing: Option<nat>)
    requires Coherent(mem, m, elems, deleted)
    requires if existing.Some? then mem.Holds(existing.value, s) else forall i :: !mem.Holds(i, s)
    ensures KeyOf(mem.opts, s) in m <==> existing.Some?
    ensures existing.Some? ==>
      var held := mem.slots[existing.value].value;
      m[KeyOf(mem.opts, s)] == held.element && KeyOf(mem.opts, held) == KeyOf(mem.opts, s)
  {
    hide KeyOf, Memory.Probing, Memory.Represents;
    HoldsIffMapped(mem, s, m);
    if existing.Some? {
      KeysAgree(mem.opts, mem.slots[existing.value].value, s);
    }
  }

  /** A table without slots has no entries. */
  lemma NoSlotsNoEntries(mem: Memory, m: map<Key, Pointer>, elems: nat, deleted: nat)
    requires Coherent(mem, m, elems, deleted) && |mem.ctl| == 0
    ensures m == map[]
  {
    hide KeyOf, Memory.Probing;
    assert forall i :: !mem.Live(i);
    assert forall key :: key !in m;
  }

  /** The slot that a new key takes is unique, and if it is not empty it was removed. */
  lemma TakenSlot(mem: Memory, s: Slot, a: int)
    requires mem.Probing() && mem.FirstFree(s, a)
    ensures mem.ctl[a] == if mem.TakesEmpty(s) then EMPTY else REMOVED
  {
    forall b | mem.FirstFree(s, b)
      ensures b == a
    {
      assert mem.Distance(mem.Home(s), a) == mem.Distance(mem.Home(s), b);
    }
  }

  /** A search that meets an empty slot can stop: its key is nowhere beyond. */
  lemma EmptyEndsSearch(mem: Memory, s: Slot, e: int)
    requires Lawful(mem.opts) && mem.Probing()
    requires 0 <= e < |mem.ctl| && KindOf(mem.ctl[e]) == Empty
    requires forall i :: 0 <= i < |mem.ctl| && mem.Before(s, i, e) ==> !mem.Holds(i, s)
    ensures forall i :: !mem.Holds(i, s)
  {
  }

  // ---- how far a search has come ----

  /** The first `i` slots of the search for the key of `s` are not empty and do not hold it. */
  ghost predicate Searched(mem: Memory, s: Slot, i: nat) {
    |mem.ctl| > 0 && forall j :: 0 <= j < |mem.ctl| && mem.Distance(mem.Home(s), j) < i ==>
      KindOf(mem.ctl[j]) != Empty && !mem.Holds(j, s)
  }

  /** `available` is the first free slot among the first `i` of the search, if there is one. */
  ghost predicate FreeSoFar(mem: Memory, s: Slot, i: nat, available: Option<nat>) {
    |mem.ctl| > 0 &&
    if available.Some? then mem.FirstFree(s, available.value)
    else forall j :: 0 <= j < |mem.ctl| && mem.Distance(mem.Home(s), j) < i ==> KindOf(mem.ctl[j]) == Occupied
  }

  lemma SearchOn(mem: Memory, s: Slot, i: nat, at: nat, available: Option<nat>)
    requires at < |mem.ctl| && mem.Distance(mem.Home(s), at) == i
    requires Searched(mem, s, i) && FreeSoFar(mem, s, i, available)
    ensures KindOf(mem.ctl[at]) != Empty && !mem.Holds(at, s) ==> Searched(mem, s, i + 1)
    ensures KindOf(mem.ctl[at]) == Occupied ==> FreeSoFar(mem, s, i + 1, available)
    ensures KindOf(mem.ctl[at]) != Occupied ==>
      FreeSoFar(mem, s, i + 1, if available.Some? then available else Some(at))
  {
    hide KindOf;
  }

  lemma SearchStart(mem: Memory, s: Slot)
    requires |mem.ctl| > 0
    ensures Searched(mem, s, 0) && FreeSoFar(mem, s, 0, None)
  {
  }

  /** What a search knows when it meets an empty slot. */
  lemma SearchMeetsEmpty(mem: Memory, s: Slot, i: nat, at: nat, available: Option<nat>)
    requires Lawful(mem.opts) && mem.Probing()
    requires at < |mem.ctl| && mem.Distance(mem.Home(s), at) == i && KindOf(mem.ctl[at]) == Empty
    requires Searched(mem, s, i) && FreeSoFar(mem, s, i, available)
    ensures forall j :: !mem.Holds(j, s)
    ensures mem.FirstFree(s, if available.Some? then available.value else at)
  {
    EmptyEndsSearch(mem, s, at);
  }

  /** What a search knows when it has looked at every slot. */
  lemma SearchWrapsAround(mem: Memory, s: Slot, available: Option<nat>)
    requires Searched(mem, s, |mem.ctl|) && FreeSoFar(mem, s, |mem.ctl|, available)
    ensures forall j :: !mem.Holds(j, s)
    ensures if available.Some? then mem.FirstFree(s, available.value)
            else forall j :: 0 <= j < |mem.ctl| ==> KindOf(mem.ctl[j]) == Occupied
  {
  }

  /** A slot with another control byte does not hold the key. */
  lemma TagsMustMatch(mem: Memory, s: Slot, at: nat)
    requires Lawful(mem.opts) && mem.Probing() && at < |mem.ctl|
    ensures mem.ctl[at] != mem.TagOf(s) ==> !mem.Holds(at, s)
    ensures mem.ctl[at] == mem.TagOf(s) ==> mem.Live(at)
  {
  }

  // ---- memory, map and counters together ----

  /** The memory stands for the map `m`, with `elems` occupied and `deleted` removed slots. */
  ghost predicate Coherent(mem: Memory, m: map<Key, Pointer>, elems: nat, deleted: nat) {
    && Lawful(mem.opts)
    && mem.Probing()
    && mem.Represents(m)
    && elems == |m| == Count(mem.ctl, Occupied)
    && deleted == Count(mem.ctl, Removed)
  }

  lemma CoherentParts(mem: Memory, m: map<Key, Pointer>, elems: nat, deleted: nat)
    requires Coherent(mem, m, elems, deleted)
    ensures Lawful(mem.opts) && mem.Probing() && mem.Represents(m) && elems == |m|
  {
  }

  lemma EmptyCoherent(mem: Memory)
    requires Lawful(mem.opts) && |mem.ctl| == |mem.slots| && forall i :: 0 <= i < |mem.ctl| ==> mem.ctl[i] == EMPTY
    ensures Coherent(mem, map[], 0, 0)
  {
    CountZero(mem.ctl, Occupied);
    CountZero(mem.ctl, Removed);
  }

  /** A new key takes the first free slot of its search. */
  lemma OccupyCoherent(mem: Memory, m: map<Key, Pointer>, elems: nat, deleted: nat, a: nat, s: Slot)
    requires Coherent(mem, m, elems, deleted) && mem.FirstFree(s, a)
    requires forall i :: !mem.Holds(i, s)
    ensures a < |mem.ctl| == |mem.slots| && KeyOf(mem.opts, s) !in m
    ensures mem.ctl[a] == if mem.TakesEmpty(s) then EMPTY else REMOVED
    ensures var wasRemoved := if mem.TakesEmpty(s) then 0 else 1;
      && deleted >= wasRemoved
      && Coherent(Occupy(mem, a, s), m[KeyOf(mem.opts, s) := s.element], elems + 1, deleted - wasRemoved)
  {
    hide Count, KeyOf, Memory.TakesEmpty;
    TakenSlot(mem, s, a);
    OccupyKeepsProbing(mem, a, s);
    OccupyRepresents(mem, a, s, m);
    CountUpdate(mem.ctl, a, mem.TagOf(s), Occupied);
    CountUpdate(mem.ctl, a, mem.TagOf(s), Removed);
  }

  lemma VacateCoherent(mem: Memory, m: map<Key, Pointer>, elems: nat, deleted: nat, i: nat)
    requires Coherent(mem, m, elems, deleted) && mem.Live(i)
    ensures var key := KeyOf(mem.opts, mem.slots[i].value);
      key in m && elems > 0 && Coherent(Vacate(mem, i), m - {key}, elems - 1, deleted + 1)
  {
    hide Count, KeyOf;
    hide Memory.Probing, Memory.Represents;
    assert KindOf(mem.ctl[i]) == Occupied;
    HoldsIffMapped(mem, mem.slots[i].value, m);
    VacateKeepsProbing(mem, i);
    VacateRepresents(mem, i, m);
    CountUpdate(mem.ctl, i, REMOVED, Occupied);
    CountUpdate(mem.ctl, i, REMOVED, Removed);
    var key := KeyOf(mem.opts, mem.slots[i].value);
    assert (m - {key}).Keys == m.Keys - {key};
  }

  lemma OverwriteCoherent(mem: Memory, m: map<Key, Pointer>, elems: nat, deleted: nat, i: nat, s: Slot)
    requires Coherent(mem, m, elems, deleted) && mem.Holds(i, s)
    ensures KeyOf(mem.opts, s) in m && m[KeyOf(mem.opts, s)] == mem.slots[i].value.element
    ensures Coherent(Overwrite(mem, i, s), m[KeyOf(mem.opts, s) := s.element], elems, deleted)
  {
    hide Count, KeyOf;
    OverwriteKeepsProbing(mem, i, s);
    OverwriteRepresents(mem, i, s, m);
    var key := KeyOf(mem.opts, s);
    assert m[key := s.element].Keys == m.Keys;
  }

  /** While the counters do not reach the table's size, a slot is empty. */
  lemma RoomLeft(mem: Memory, m: map<Key, Pointer>, elems: nat, deleted: nat)
    requires Coherent(mem, m, elems, deleted) && elems + deleted < |mem.ctl|
    ensures exists i :: 0 <= i < |mem.ctl| && KindOf(mem.ctl[i]) == Empty
  {
    CountTotal(mem.ctl);
    CountZero(mem.ctl, Empty);
  }
}
