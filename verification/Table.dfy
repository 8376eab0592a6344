/** The hash table (src/table/table.c). `malloc` is a parameter: `None` when it fails, otherwise the
    address of the new control array, which is the table's hash seed. */
module HashTable {
  import Arith
  import opened Wrappers
  import opened TableDefaults
  import opened TableSpec
  import opened TableOrder

  const LF_MAX := 85
  const LF_MIN := 50
  const LF_DENOMINATOR := 100

  /** `LF_CAPACITY_TO_SIZE` */
  function CapacityToSize(lf: nat, capacity: nat): nat
    requires lf > 0
  {
    (capacity * LF_DENOMINATOR + lf - 1) / lf
  }

  /** The size `create` gives a table that was asked for `newSize` slots. */
  function InitialSize(opts: Opts, newSize: nat): nat {
    var least := CapacityToSize(LF_MAX, opts.minCapacity);
    if newSize < least then least else newSize
  }

  /** `struct clod_table_iter` */
  class TableIter {
    var element: Option<Pointer>
    var keySize: nat
    var internal: nat

    constructor ()
      ensures element.None? && keySize == 0 && internal == 0
    {
      element, keySize, internal := None, 0, 0;
    }
  }

  class Table {
    const opts: Opts
    var elemCount: nat
    var deletedCount: nat
    var tableSize: nat
    var cursor: nat
    var control: array<nat>
    var elements: array<Option<Slot>>   // None: memory not written since malloc
    var seed: nat                       // the address of `control`

    ghost var m: map<Key, Pointer>      // the finite map this table stands for

    ghost function Mem(): Memory
      reads this, control, elements
    {
      Memory(opts, seed, control[..], elements[..])
    }

    /** Slots that are not EMPTY. */
    function Used(): nat
      reads this
    {
      elemCount + deletedCount
    }

    /** `t->table_size == 0 || LF(t) >= LF_MAX` */
    predicate NeedsRebuild()
      reads this
    {
      tableSize == 0 || Used() * LF_DENOMINATOR / tableSize >= LF_MAX
    }

    ghost predicate Consistent()
      reads this, control, elements
    {
      && control.Length == elements.Length == tableSize
      && Coherent(Mem(), m, elemCount, deletedCount)
      && InitialSize(opts, tableSize) == tableSize
    }

    ghost predicate Valid()
      reads this, control, elements
    {
      Consistent() && (tableSize >= 7 ==> Used() < tableSize)
    }

    /** An insertion of this key now takes a slot that is EMPTY, which a rebuild's slots are. */
    ghost predicate FillsEmpty(element: Pointer, keySize: nat)
      reads this, control, elements
    {
      var s := Slot(element, keySize);
      KeyOf(opts, s) !in m && (NeedsRebuild() || Mem().TakesEmpty(s))
    }

    /** `create`, when malloc succeeds or the size is 0 */
    constructor Create(opts: Opts, newSize: nat, address: nat)
      requires Lawful(opts)
      ensures this.opts == opts && seed == address
      ensures tableSize == InitialSize(opts, newSize) && elemCount == deletedCount == cursor == 0
      ensures Valid() && m == map[]
      ensures fresh(control) && fresh(elements)
    {
      var size := InitialSize(opts, newSize);
      this.opts := opts;
      elemCount, deletedCount, cursor := 0, 0, 0;
      tableSize := size;
      control := new nat[size](_ => EMPTY);
      elements := new Option<Slot>[size](_ => None);
      seed := address;
      m := map[];
      new;
      EmptyCoherent(Mem());
    }

    /** `get_position` */
    function GetPosition(key: Pointer, keySize: nat): (pos: (nat, nat))
      requires tableSize > 0
      reads this
    {
      var hash := opts.hash(seed, key, keySize);
      (hash / 128 % tableSize, Tag(hash))
    }

    /** `key_equal`; its slot has been written. */
    predicate KeyEqual(index: nat, key: Pointer, keySize: nat)
      requires index < elements.Length && elements[index].Some?
      reads this, elements
    {
      var res := elements[index].value;
      res.keySize == keySize && opts.cmp(res.element, key, res.keySize) == 0
    }

    method Probe(key: Pointer, keySize: nat) returns (existing: Option<nat>, available: Option<nat>)
      requires Consistent() && tableSize > 0
      ensures existing.Some? ==> Mem().Holds(existing.value, Slot(key, keySize)) && available.None?
      ensures existing.None? ==> forall i :: !Mem().Holds(i, Slot(key, keySize))
      ensures existing.None? && available.Some? ==> Mem().FirstFree(Slot(key, keySize), available.value)
      ensures existing.None? && available.None? ==>
        forall i :: 0 <= i < control.Length ==> KindOf(control[i]) == Occupied
    {
      hide Wrapped, Searched, FreeSoFar, Count, InitialSize, Memory.Represents, Memory.FirstFree;
      var pos := GetPosition(key, keySize);
      ghost var s := Slot(key, keySize);
      ghost var mem := Mem();
      existing, available := None, None;
      SearchStart(mem, s);
      for i := 0 to tableSize
        invariant existing.None? && Searched(mem, s, i) && FreeSoFar(mem, s, i, available)
      {
        var index := Wrapped(pos.0, i, tableSize);
        SearchOn(mem, s, i, index, available);
        TagsMustMatch(mem, s, index);
        if control[index] == EMPTY {
          SearchMeetsEmpty(mem, s, i, index, available);
          return None, if available.Some? then available else Some(index);
        }
        if control[index] == pos.1 && KeyEqual(index, key, keySize) {
          return Some(index), None;
        }
        if control[index] == REMOVED && available.None? {
          available := Some(index);
        }
      }
      SearchWrapsAround(mem, s, available);
    }

    /** `insert`. The key's slot is found, or the key takes the first free slot of its search; the
        assertions of the C code hold. */
    method Insert(replace: bool, element: Pointer, keySize: nat) returns (r: Option<Pointer>)
      requires Consistent() && Used() < tableSize
      modifies this`elemCount, this`deletedCount, this`m, control, elements
      ensures Consistent()
      ensures var key := KeyOf(opts, Slot(element, keySize));
        if key in old(m) then
          && r == Some(old(m)[key])
          && m == (if replace then old(m)[key := element] else old(m))
          && elemCount == old(elemCount) && deletedCount == old(deletedCount)
        else
          && r == None
          && m == old(m)[key := element]
          && elemCount == old(elemCount) + 1
          && deletedCount == old(deletedCount) - (if old(Mem()).TakesEmpty(Slot(element, keySize)) then 0 else 1)
      ensures Inserted(old(Mem()), replace, Slot(element, keySize), Mem())
    {
      hide Coherent, KeyOf, KindOf, SameKey, Memory.TakesEmpty;
      ghost var s := Slot(element, keySize);
      ghost var mem := Mem();
      var pos := GetPosition(element, keySize);
      var existing, available := Probe(element, keySize);
      if existing.Some? {
        var at := existing.value;
        OverwriteCoherent(mem, m, elemCount, deletedCount, at, s);
        r := Some(elements[at].value.element);
        if replace {
          elements[at] := Some(Slot(element, keySize));
          m := m[KeyOf(opts, s) := element];
          assert Mem() == Overwrite(mem, at, s);
        }
        assert mem.Holds(at, s);
        return;
      }
      RoomLeft(mem, m, elemCount, deletedCount);
      assert available.Some?;
      Put(available.value, pos.1, element, keySize);
      return None;
    }

    /** The writes of `insert` for a new key. */
    method Put(at: nat, ctl: nat, element: Pointer, keySize: nat)
      requires Consistent()
      requires Mem().FirstFree(Slot(element, keySize), at) && ctl == Mem().TagOf(Slot(element, keySize))
      requires forall i :: !Mem().Holds(i, Slot(element, keySize))
      modifies this`elemCount, this`deletedCount, this`m, control, elements
      ensures Consistent() && KeyOf(opts, Slot(element, keySize)) !in old(m)
      ensures m == old(m)[KeyOf(opts, Slot(element, keySize)) := element]
      ensures elemCount == old(elemCount) + 1
      ensures deletedCount == old(deletedCount) - (if old(Mem()).TakesEmpty(Slot(element, keySize)) then 0 else 1)
      ensures Mem() == Occupy(old(Mem()), at, Slot(element, keySize))
    {
      hide Coherent, KeyOf, KindOf, SameKey, Memory.TakesEmpty, Memory.FirstFree, InitialSize;
      ghost var s := Slot(element, keySize);
      ghost var mem := Mem();
      OccupyCoherent(mem, m, elemCount, deletedCount, at, s);
      elemCount := elemCount + 1;
      if control[at] == REMOVED { deletedCount := deletedCount - 1; }
      control[at] := ctl;
      elements[at] := Some(Slot(element, keySize));
      m := m[KeyOf(opts, s) := element];
      assert Mem() == Occupy(mem, at, s);
    }

    /** `clod_table_iter` */
    method Iter(it: TableIter) returns (found: bool)
      requires Consistent()
      modifies it
      ensures var ahead := Ahead(Mem(), cursor, old(it.internal));
        if found then
          && Yielded(Mem(), ahead, it)
          && ahead[1..] == Ahead(Mem(), cursor, it.internal)
          && old(it.internal) < it.internal <= tableSize
        else
          ahead == [] && it.element.None? && it.keySize == 0 && it.internal == 0
    {
      hide Coherent, Visit, KeyOf, Memory.Probing, Memory.Represents;
      ghost var mem := Mem();
      CoherentParts(mem, m, elemCount, deletedCount);
      ghost var ahead := Ahead(mem, cursor, it.internal);
      while it.internal < tableSize
        invariant old(it.internal) <= it.internal
        invariant Ahead(mem, cursor, it.internal) == ahead
      {
        VisitAtStep(tableSize, cursor, it.internal);
        var index := Visit(tableSize, cursor, it.internal);
        OccupiedIsLive(mem, index);
        if KindOf(control[index]) == Occupied {
          var res := elements[index].value;
          it.element, it.keySize := Some(res.element), res.keySize;
          it.internal := it.internal + 1;
          assert ahead == [index] + Ahead(mem, cursor, it.internal);
          return true;
        }
        it.internal := it.internal + 1;
      }
      it.internal, it.element, it.keySize := 0, None, 0;
      return false;
    }

    /** One turn of the loop in `rebuild`: the first of the slots `ahead` in `mem` is inserted here.
        The key cannot be here yet. */
    method Take(element: Pointer, keySize: nat, ghost mem: Memory, ghost from: map<Key, Pointer>, ghost ahead: seq<int>)
      requires Consistent() && deletedCount == 0 && |from| <= tableSize
      requires Lawful(mem.opts) && mem.Probing() && mem.Represents(from) && mem.opts == opts
      requires ahead != [] && mem.Live(ahead[0]) && mem.slots[ahead[0]] == Some(Slot(element, keySize))
      requires Transferred(mem, from, ahead, m)
      modifies this`elemCount, this`deletedCount, this`m, control, elements
      ensures Consistent() && deletedCount == 0 && elemCount == old(elemCount) + 1
      ensures Transferred(mem, from, ahead[1..], m)
    {
      hide Coherent, Transferred, KeyOf, Memory.Probing, Memory.Represents;
      CoherentParts(Mem(), m, elemCount, deletedCount);
      TransferStep(mem, from, ahead, m);
      var dup := Insert(false, element, keySize);
      assert dup.None?;
      CoherentParts(Mem(), m, elemCount, deletedCount);
    }

    /** The loop of `rebuild`: a new table under a new seed with this table's elements, each of them
        inserted once. */
    method Refill(newSize: nat, address: nat) returns (t: Table, ghost inserted: nat)
      requires Consistent() && elemCount < newSize
      ensures fresh(t) && fresh(t.control) && fresh(t.elements)
      ensures t.opts == opts && t.seed == address && t.tableSize == InitialSize(opts, newSize)
      ensures t.Consistent() && t.m == m && t.elemCount == elemCount && t.deletedCount == t.cursor == 0
      ensures inserted == elemCount
    {
      hide Coherent, Ahead, Transferred, KeyOf, KindOf, InitialSize, Memory.Probing, Memory.Represents;
      ghost var mem := Mem();
      CoherentParts(mem, m, elemCount, deletedCount);
      AtLeastAskedFor(opts, newSize);
      t := new Table.Create(opts, newSize, address);
      var it := new TableIter();
      ghost var ahead := Ahead(mem, cursor, 0);
      TransferStart(mem, m, cursor);
      inserted := 0;
      var more := Iter(it);
      while more
        invariant fresh(t) && fresh(it) && fresh(t.control) && fresh(t.elements)
        invariant t.opts == opts && t.seed == address && t.cursor == 0
        invariant t.Consistent() && t.deletedCount == 0 && t.elemCount == inserted
        invariant t.tableSize == InitialSize(opts, newSize)
        invariant Transferred(mem, m, ahead, t.m)
        invariant if more then Yielded(mem, ahead, it) && ahead[1..] == Ahead(mem, cursor, it.internal) else ahead == []
        decreases |ahead|
      {
        t.Take(it.element.value, it.keySize, mem, m, ahead);
        inserted, ahead := inserted + 1, ahead[1..];
        more := Iter(it);
      }
      CoherentParts(t.Mem(), t.m, t.elemCount, t.deletedCount);
      TransferDone(mem, m, t.m);
    }

    /** The struct copy that ends `rebuild`. */
    method Adopt(t: Table)
      requires t != this && t.opts == opts && t.Consistent()
      modifies `elemCount, `deletedCount, `tableSize, `cursor, `control, `elements, `seed, `m
      ensures control == t.control && elements == t.elements && seed == t.seed
      ensures elemCount == t.elemCount && deletedCount == t.deletedCount
      ensures tableSize == t.tableSize && cursor == t.cursor && m == t.m
      ensures Consistent()
    {
      hide Coherent, InitialSize;
      elemCount, deletedCount, tableSize, cursor := t.elemCount, t.deletedCount, t.tableSize, t.cursor;
      control, elements, seed, m := t.control, t.elements, t.seed, t.m;
      assert Mem() == t.Mem();
    }

    /** `rebuild`: every element moves to a new table with a new seed; tombstones vanish. */
    method Rebuild(newSize: nat, malloc: Option<nat>) returns (ok: bool)
      requires Consistent() && elemCount < newSize
      modifies this
      ensures Consistent() && m == old(m) && elemCount == old(elemCount)
      ensures ok == malloc.Some?
      ensures ok ==>
        && fresh(control) && fresh(elements) && seed == malloc.value
        && tableSize == InitialSize(opts, newSize) && deletedCount == 0 && cursor == 0
      ensures !ok ==> unchanged(this)
    {
      hide Coherent, InitialSize, KeyOf, Memory.Probing, Memory.Represents, CapacityToSize;
      if malloc.None? { return false; }
      var t, _ := Refill(newSize, malloc.value);
      Adopt(t);
      return true;
    }

    /** `clod_table_create`: the struct itself is allocated first, an empty table needs no more. */
    static method CreateTable(given: Option<Given>, content: Content, struct: bool, malloc: Option<nat>)
      returns (t: Table?)
      requires Lawful(WithDefaults(given, content))
      ensures t == null <==> !struct || (malloc.None? && given.Some? && given.value.minCapacity > 0)
      ensures t != null ==> fresh(t) && fresh(t.control) && fresh(t.elements)
      ensures t != null ==> t.opts == WithDefaults(given, content) && Configured(given, content, t.opts)
      ensures t != null ==> t.Valid() && t.m == map[] && t.Used() == 0
      ensures t != null ==> t.tableSize == CapacityToSize(LF_MAX, t.opts.minCapacity)
    {
      hide Lawful, Configured, DefaultHash, Compare;
      DefaultsConfigured(given, content);
      var opts := WithDefaults(given, content);
      SizeForCapacity(opts.minCapacity);
      var size := CapacityToSize(LF_MAX, opts.minCapacity);
      if !struct || (InitialSize(opts, size) > 0 && malloc.None?) {
        return null;
      }
      t := new Table.Create(opts, size, if malloc.Some? then malloc.value else 0);
    }

    /** `clod_table_len` */
    method Len() returns (n: nat)
      requires Valid()
      ensures n == |m|
    {
      n := elemCount;
    }

    /** The rebuild with which `clod_table_add` and `clod_table_set` start. */
    method Reserve(malloc: Option<nat>) returns (ok: bool)
      requires Valid()
      modifies this
      ensures ok == (!old(NeedsRebuild()) || malloc.Some?)
      ensures !ok || !old(NeedsRebuild()) ==> unchanged(this)
      ensures ok && old(NeedsRebuild()) ==>
        && fresh(control) && fresh(elements) && seed == malloc.value
        && tableSize == InitialSize(opts, 2 * (elemCount + 1)) && deletedCount == cursor == 0
      ensures Consistent() && m == old(m) && elemCount == old(elemCount)
      ensures ok ==> Used() < tableSize && (tableSize >= 7 ==> Used() + 1 < tableSize)
    {
      hide Coherent, InitialSize;
      if tableSize == 0 || Used() * LF_DENOMINATOR / tableSize >= LF_MAX {
        SizeForElements(elemCount + 1);
        ok := Rebuild(CapacityToSize(LF_MIN, elemCount + 1), malloc);
        AtLeastAskedFor(opts, 2 * (elemCount + 1));
      } else {
        LoadNotReached(Used(), tableSize);
        ok := true;
      }
    }

    /** What a successful insertion did to the slots: a rebuild, if one was due, keeps the elements and
        no tombstone; one more slot is in use exactly if the key took an EMPTY one; and no slot was
        written but the key's. */
    twostate predicate Grown(replace: bool, element: Pointer, keySize: nat, malloc: Option<nat>)
      reads this, control, elements
    {
      && (if old(NeedsRebuild()) then
            malloc.Some?
            && InsertedAnew(opts, old(m), old(elemCount), malloc.value, replace, Slot(element, keySize), Mem())
          else Inserted(old(Mem()), replace, Slot(element, keySize), Mem()))
      && Used() == (if old(NeedsRebuild()) then old(elemCount) else old(Used()))
                   + (if old(FillsEmpty(element, keySize)) then 1 else 0)
      && tableSize == (if old(NeedsRebuild()) then InitialSize(opts, 2 * (old(elemCount) + 1)) else old(tableSize))
      && (if old(NeedsRebuild()) then malloc.Some? && seed == malloc.value
          else control == old(control) && seed == old(seed))
    }

    /** `clod_table_add` */
    method Add(element: Pointer, keySize: nat, malloc: Option<nat>) returns (r: Option<Pointer>)
      requires Valid()
      modifies this, control, elements
      ensures Valid() && (control == old(control) || fresh(control)) && (elements == old(elements) || fresh(elements))
      ensures old(NeedsRebuild()) && malloc.None? ==>
        r == Some(element) && unchanged(this) && unchanged(old(control)) && unchanged(old(elements))
      ensures !(old(NeedsRebuild()) && malloc.None?) ==>
        var key := KeyOf(opts, Slot(element, keySize));
        && r == Lookup(old(m), key)
        && m == (if key in old(m) then old(m) else old(m)[key := element])
      ensures !(old(NeedsRebuild()) && malloc.None?) ==> Grown(false, element, keySize, malloc)
      ensures old(Used()) < opts.minCapacity ==> !old(NeedsRebuild())
    {
      hide Coherent, InitialSize, KeyOf;
      CapacityHolds(opts, Used(), tableSize);
      var ok := Reserve(malloc);
      if !ok { return Some(element); }
      ghost var mid := Mem();
      r := Insert(false, element, keySize);
      assert old(NeedsRebuild()) ==> Rebuilt(opts, old(m), old(elemCount), malloc.value, mid);
    }

    /** `clod_table_set` */
    method Set(element: Pointer, keySize: nat, malloc: Option<nat>) returns (r: Option<Pointer>)
      requires Valid()
      modifies this, control, elements
      ensures Valid() && (control == old(control) || fresh(control)) && (elements == old(elements) || fresh(elements))
      ensures old(NeedsRebuild()) && malloc.None? ==>
        r == Some(element) && unchanged(this) && unchanged(old(control)) && unchanged(old(elements))
      ensures !(old(NeedsRebuild()) && malloc.None?) ==>
        var key := KeyOf(opts, Slot(element, keySize));
        r == Lookup(old(m), key) && m == old(m)[key := element]
      ensures !(old(NeedsRebuild()) && malloc.None?) ==> Grown(true, element, keySize, malloc)
      ensures old(Used()) < opts.minCapacity ==> !old(NeedsRebuild())
    {
      hide Coherent, InitialSize, KeyOf;
      CapacityHolds(opts, Used(), tableSize);
      var ok := Reserve(malloc);
      if !ok { return Some(element); }
      ghost var mid := Mem();
      r := Insert(true, element, keySize);
      assert old(NeedsRebuild()) ==> Rebuilt(opts, old(m), old(elemCount), malloc.value, mid);
    }

    /** `clod_table_get` */
    method Get(key: Pointer, keySize: nat) returns (r: Option<Pointer>)
      requires Valid()
      ensures r == Lookup(m, KeyOf(opts, Slot(key, keySize)))
    {
      hide Coherent, KeyOf, SameKey;
      if tableSize == 0 {
        NoSlotsNoEntries(Mem(), m, elemCount, deletedCount);
        return None;
      }
      var existing, _ := Probe(key, keySize);
      SearchAnswers(Mem(), m, elemCount, deletedCount, Slot(key, keySize), existing);
      if existing.Some? {
        return Some(elements[existing.value].value.element);
      }
      return None;
    }

    /** `clod_table_del` */
    method Del(key: Pointer, keySize: nat) returns (r: Option<Pointer>)
      requires Valid()
      modifies this`elemCount, this`deletedCount, this`cursor, this`m, control
      ensures Valid() && Used() == old(Used())
      ensures Deleted(old(Mem()), Slot(key, keySize), Mem())
      ensures r == Lookup(old(m), KeyOf(opts, Slot(key, keySize)))
      ensures m == old(m) - {KeyOf(opts, Slot(key, keySize))}
      ensures cursor == old(cursor) + if r.Some? then 1 else 0
    {
      hide Coherent, KeyOf, SameKey;
      DeleteAbsent(m, KeyOf(opts, Slot(key, keySize)));
      if tableSize == 0 {
        NoSlotsNoEntries(Mem(), m, elemCount, deletedCount);
        return None;
      }
      var existing, _ := Probe(key, keySize);
      SearchAnswers(Mem(), m, elemCount, deletedCount, Slot(key, keySize), existing);
      if existing.Some? {
        r := Some(elements[existing.value].value.element);
        Remove(existing.value);
        return r;
      }
      return None;
    }

    /** The writes of `clod_table_del`. */
    method Remove(at: nat)
      requires Valid() && Mem().Live(at)
      modifies this`elemCount, this`deletedCount, this`cursor, this`m, control
      ensures Valid() && Used() == old(Used()) && Mem() == Vacate(old(Mem()), at)
      ensures m == old(m) - {old(KeyOf(opts, elements[at].value))} && cursor == old(cursor) + 1
    {
      hide Coherent, KeyOf;
      ghost var mem := Mem();
      VacateCoherent(mem, m, elemCount, deletedCount, at);
      control[at] := REMOVED;
      elemCount := elemCount - 1;
      deletedCount := deletedCount + 1;
      cursor := cursor + 1;
      m := m - {KeyOf(opts, elements[at].value)};
      assert Mem() == Vacate(mem, at);
    }
  }

  /** The slots of a table that was just rebuilt: a new seed and size, the same entries, no tombstone. */
  ghost predicate Rebuilt(opts: Opts, m: map<Key, Pointer>, elems: nat, seed: nat, mem: Memory) {
    && mem.opts == opts && mem.seed == seed
    && |mem.ctl| == InitialSize(opts, 2 * (elems + 1))
    && Coherent(mem, m, elems, 0)
  }

  /** What a rebuild and an insertion after it write. */
  ghost predicate InsertedAnew(opts: Opts, m: map<Key, Pointer>, elems: nat, seed: nat,
                               replace: bool, s: Slot, next: Memory)
  {
    exists mid :: Rebuilt(opts, m, elems, seed, mid) && Inserted(mid, replace, s, next)
  }

  lemma DeleteAbsent(m: map<Key, Pointer>, key: Key)
    ensures key !in m ==> m - {key} == m
  {
  }

  function Lookup(m: map<Key, Pointer>, key: Key): Option<Pointer> {
    if key in m then Some(m[key]) else None
  }

  // ---- load factors ----

  /** The size for a capacity is the least at which that many elements are within the load factor. */
  lemma LeastSize(lf: nat, capacity: nat, size: nat)
    requires lf > 0
    ensures size >= CapacityToSize(lf, capacity) <==> size * lf >= capacity * 100
  {
    var q, r := Arith.DivMod(capacity * LF_DENOMINATOR + lf - 1, lf);
    Arith.MulDifference(size, q, lf);
    if size > q {
      Arith.MulAtLeast(size - q, lf);
    } else if size < q {
      Arith.MulDifference(q, size, lf);
      Arith.MulAtLeast(q - size, lf);
    }
  }

  /** When an insertion rebuilds: from 85 percent on, and with what size: two slots for each element and the
      new one, but room for the minimum capacity at 85 percent. */
  lemma RebuildExactly(opts: Opts, used: nat, elems: nat, size: nat)
    ensures size > 0 ==> (used * LF_DENOMINATOR / size >= LF_MAX <==> 100 * used >= 85 * size)
    ensures var n := InitialSize(opts, CapacityToSize(LF_MIN, elems + 1));
      && n >= 2 * (elems + 1) && 85 * n >= 100 * opts.minCapacity
      && forall k: nat :: k >= 2 * (elems + 1) && 85 * k >= 100 * opts.minCapacity ==> k >= n
  {
    if size > 0 {
      LoadExactly(used, size);
    }
    forall k: nat
      ensures k >= CapacityToSize(LF_MAX, opts.minCapacity) <==> 85 * k >= 100 * opts.minCapacity
    {
      LeastSize(LF_MAX, opts.minCapacity, k);
    }
  }

  lemma LoadExactly(used: nat, size: nat)
    requires size > 0
    ensures used * LF_DENOMINATOR / size >= LF_MAX <==> 100 * used >= 85 * size
  {
    var q, r := Arith.DivMod(used * LF_DENOMINATOR, size);
    Arith.MulDifference(q, LF_MAX, size);
    if q > LF_MAX {
      Arith.MulAtLeast(q - LF_MAX, size);
    } else if q < LF_MAX {
      Arith.MulDifference(LF_MAX, q, size);
      Arith.MulAtLeast(LF_MAX - q, size);
    }
  }

  lemma SizeForCapacity(capacity: nat)
    ensures CapacityToSize(LF_MAX, capacity) * LF_MAX >= capacity * LF_DENOMINATOR
    ensures CapacityToSize(LF_MAX, capacity) == 0 <==> capacity == 0
  {
  }

  lemma SizeForElements(elems: nat)
    ensures CapacityToSize(LF_MIN, elems) == 2 * elems
  {
  }

  lemma LoadReached(used: nat, size: nat)
    requires size == 0 || used * LF_DENOMINATOR / size >= LF_MAX
    ensures used * LF_DENOMINATOR >= LF_MAX * size
  {
  }

  lemma LoadNotReached(used: nat, size: nat)
    requires size > 0 && used * LF_DENOMINATOR / size < LF_MAX
    ensures used < size && (size >= 7 ==> used + 1 < size)
  {
  }

  /** Between two rebuilds the load rises from at most 50 to at least 85 percent, so the insertions in
      between pay for what the second one moves: 7 * moved <= 17 * filled. */
  lemma RebuildIsPaid(filled: nat, used: nat, base: nat, moved: nat, size: nat, elems: nat)
    requires base <= used && filled >= used - base && 17 * (filled - (used - base)) >= 7 * moved
    requires base > 0 ==> size >= 2 * (base + 1)
    requires used * LF_DENOMINATOR >= LF_MAX * size && elems <= used
    ensures 17 * filled >= 7 * (moved + elems)
  {
  }

  lemma AtLeastAskedFor(opts: Opts, n: nat)
    ensures InitialSize(opts, n) >= n
  {
  }

  /** A table that uses fewer slots than its minimum capacity never rebuilds. */
  lemma CapacityHolds(opts: Opts, used: nat, size: nat)
    requires InitialSize(opts, size) == size
    ensures used < opts.minCapacity ==> size > 0 && used * LF_DENOMINATOR / size < LF_MAX
  {
    SizeForCapacity(opts.minCapacity);
    if used < opts.minCapacity && used * LF_DENOMINATOR / size >= LF_MAX {
      LoadReached(used, size);
    }
  }

  /** The iterator stands on the first of the slots that lie ahead. */
  ghost predicate Yielded(mem: Memory, ahead: seq<int>, it: TableIter)
    reads it
  {
    ahead != [] && mem.Live(ahead[0]) &&
    it.element == Some(mem.slots[ahead[0]].value.element) && it.keySize == mem.slots[ahead[0]].value.keySize
  }

  /** The slot that lies `i` steps behind `home`, around the end of the table. */
  function Wrapped(home: nat, i: nat, n: nat): (at: nat)
    requires home < n && i < n
    ensures at == if home + i < n then home + i else home + i - n
  {
    Wrap(home, i, n);
    (home + i) % n
  }

  lemma Wrap(home: nat, i: nat, n: nat)
    requires home < n && i < n
    ensures (home + i) % n == if home + i < n then home + i else home + i - n
  {
  }
}
