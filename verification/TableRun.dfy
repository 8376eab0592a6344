/** Whole runs of the hash table against a finite map. */
module TableRun {
  import opened Wrappers
  import opened TableDefaults
  import opened TableSpec
  import opened TableOrder
  import opened HashTable

  datatype Op =
    | Add(key: Pointer, keySize: nat, malloc: Option<nat>)
    | Set(key: Pointer, keySize: nat, malloc: Option<nat>)
    | Get(key: Pointer, keySize: nat)
    | Del(key: Pointer, keySize: nat)

  ghost function OpKey(o: Opts, op: Op): Key {
    KeyOf(o, Slot(op.key, op.keySize))
  }

  /** The map after an operation. Every operation answers with the previous entry of its key. */
  ghost function MapAfter(o: Opts, m: map<Key, Pointer>, op: Op): map<Key, Pointer> {
    var key := OpKey(o, op);
    match op
    case Add(e, _, _) => if key in m then m else m[key := e]
    case Set(e, _, _) => m[key := e]
    case Get(_, _) => m
    case Del(_, _) => m - {key}
  }

  // ---- the state of a table, and what one operation does to it ----

  datatype State = State(mem: Memory, m: map<Key, Pointer>, elems: nat, deleted: nat) {
    function Used(): nat {
      elems + deleted
    }

    predicate Full() {
      |mem.ctl| == 0 || Used() * LF_DENOMINATOR / |mem.ctl| >= LF_MAX
    }
  }

  ghost function StateOf(t: Table): State
    reads t, t.control, t.elements
  {
    State(t.Mem(), t.m, t.elemCount, t.deletedCount)
  }

  predicate Inserts(op: Op) {
    op.Add? || op.Set?
  }

  /** The operation needs memory and gets none. */
  predicate Fails(st: State, op: Op) {
    Inserts(op) && op.malloc.None? && st.Full()
  }

  predicate Rebuilds(st: State, op: Op) {
    Inserts(op) && op.malloc.Some? && st.Full()
  }

  /** How many elements the operation moves to a new table. */
  function MovedBy(st: State, op: Op): nat {
    if Rebuilds(st, op) then st.elems else 0
  }

  /** Whether the operation fills an EMPTY slot; in a new table every free slot is one. */
  ghost function FilledBy(st: State, op: Op): nat {
    if Inserts(op) && !Fails(st, op) && OpKey(st.mem.opts, op) !in st.m
       && (st.Full() || st.mem.TakesEmpty(Slot(op.key, op.keySize)))
    then 1 else 0
  }

  /** The slots that the operation writes, if it does not fail. */
  ghost predicate Writes(st: State, op: Op, next: Memory) {
    match op
    case Get(_, _) => next == st.mem
    case Del(k, n) => Deleted(st.mem, Slot(k, n), next)
    case _ =>
      var s := Slot(op.key, op.keySize);
      if Rebuilds(st, op) then InsertedAnew(st.mem.opts, st.m, st.elems, op.malloc.value, op.Set?, s, next)
      else Inserted(st.mem, op.Set?, s, next)
  }

  /** From `st` the operation leads to `next`. If it needs memory and gets none, it hands its element back
      and changes nothing. Otherwise it answers as the map does, writes the slots it has to and no
      others, and its counters are those of the slots: one more slot is in use exactly if an EMPTY one was
      filled, and a rebuild has its seed and its size. */
  ghost predicate Follows(st: State, op: Op, answer: Option<Pointer>, next: State) {
    if Fails(st, op) then answer == Some(op.key) && next == st
    else
      && answer == Lookup(st.m, OpKey(st.mem.opts, op))
      && next.m == MapAfter(st.mem.opts, st.m, op)
      && next.mem.opts == st.mem.opts
      && Coherent(next.mem, next.m, next.elems, next.deleted)
      && Writes(st, op, next.mem)
      && next.Used() == (if Rebuilds(st, op) then st.elems else st.Used()) + FilledBy(st, op)
      && |next.mem.ctl| == (if Rebuilds(st, op) then InitialSize(st.mem.opts, 2 * (st.elems + 1)) else |st.mem.ctl|)
      && next.mem.seed == (if Rebuilds(st, op) then op.malloc.value else st.mem.seed)
  }

  /** `states` are the states before each operation of a run and after the last. */
  ghost predicate IsRun(states: seq<State>, ops: seq<Op>, answers: seq<Option<Pointer>>) {
    && |answers| == |ops| && |states| == |ops| + 1
    && forall i :: 0 <= i < |ops| ==> Follows(states[i], ops[i], answers[i], states[i + 1])
  }

  /** Runs a list of operations on a table. */
  method Execute(t: Table, ops: seq<Op>) returns (answers: seq<Option<Pointer>>, ghost states: seq<State>)
    requires t.Valid()
    modifies t, t.control, t.elements
    ensures t.Valid()
    ensures (t.control == old(t.control) || fresh(t.control)) && (t.elements == old(t.elements) || fresh(t.elements))
    ensures IsRun(states, ops, answers) && states[0] == old(StateOf(t)) && states[|ops|] == StateOf(t)
  {
    hide Follows, StateOf, Coherent, InitialSize;
    answers, states := [], [StateOf(t)];
    for i := 0 to |ops|
      invariant t.Valid()
      invariant t.control == old(t.control) || fresh(t.control)
      invariant t.elements == old(t.elements) || fresh(t.elements)
      invariant |answers| == i && |states| == i + 1 && states[0] == old(StateOf(t)) && states[i] == StateOf(t)
      invariant forall j :: 0 <= j < i ==> Follows(states[j], ops[j], answers[j], states[j + 1])
    {
      var answer := Apply(t, ops[i]);
      answers, states := answers + [answer], states + [StateOf(t)];
    }
  }

  method Apply(t: Table, op: Op) returns (answer: Option<Pointer>)
    requires t.Valid()
    modifies t, t.control, t.elements
    ensures t.Valid() && Follows(old(StateOf(t)), op, answer, StateOf(t))
    ensures (t.control == old(t.control) || fresh(t.control)) && (t.elements == old(t.elements) || fresh(t.elements))
  {
    hide Coherent, KeyOf, InitialSize, Inserted, InsertedAnew, Deleted, Memory.TakesEmpty;
    match op
    case Add(e, n, malloc) => answer := t.Add(e, n, malloc);
    case Set(e, n, malloc) => answer := t.Set(e, n, malloc);
    case Get(k, n) => answer := t.Get(k, n);
    case Del(k, n) => answer := t.Del(k, n);
  }

  /** A table from its creation on: it stands for the empty map at first. */
  method CreateAndExecute(given: Option<Given>, content: Content, struct: bool, malloc: Option<nat>, ops: seq<Op>)
    returns (t: Table?, answers: seq<Option<Pointer>>, ghost states: seq<State>)
    requires Lawful(WithDefaults(given, content))
    ensures t == null <==> !struct || (malloc.None? && given.Some? && given.value.minCapacity > 0)
    ensures t != null ==>
      && t.Valid() && IsRun(states, ops, answers)
      && states[0].mem.opts == WithDefaults(given, content)
      && Configured(given, content, states[0].mem.opts)
      && states[0].m == map[] && states[0].Used() == 0 && states[|ops|] == StateOf(t)
      && |states[0].mem.ctl| == CapacityToSize(LF_MAX, states[0].mem.opts.minCapacity) && RightSize(states[0])
      && 7 * Moved(states, ops) <= 17 * Filled(states, ops)
  {
    hide Lawful, WithDefaults, Configured, Follows;
    answers, states := [], [];
    t := Table.CreateTable(given, content, struct, malloc);
    if t != null {
      answers, states := Execute(t, ops);
      RebuildsArePaid(states, ops, answers);
    }
  }

  // ---- the cost of the rebuilds ----

  /** Elements moved by all rebuilds of a run. */
  function Moved(states: seq<State>, ops: seq<Op>): nat
    requires |states| >= |ops|
    decreases |ops|
  {
    if ops == [] then 0
    else
      var last := |ops| - 1;
      Moved(states, ops[..last]) + MovedBy(states[last], ops[last])
  }

  /** EMPTY slots filled by all insertions of a run. */
  ghost function Filled(states: seq<State>, ops: seq<Op>): nat
    requires |states| >= |ops|
    decreases |ops|
  {
    if ops == [] then 0
    else
      var last := |ops| - 1;
      Filled(states, ops[..last]) + FilledBy(states[last], ops[last])
  }

  /** Elements that the last rebuild of a run put into its table. */
  function Base(states: seq<State>, ops: seq<Op>): nat
    requires |states| >= |ops|
    decreases |ops|
  {
    if ops == [] then 0
    else
      var last := |ops| - 1;
      if Rebuilds(states[last], ops[last]) then states[last].elems else Base(states, ops[..last])
  }

  /** Since the last rebuild `Used() - base` slots were filled; what was filled before has paid for every
      element moved. */
  predicate Paid(st: State, base: nat, filled: nat, moved: nat) {
    && base <= st.Used() && filled >= st.Used() - base
    && 17 * (filled - (st.Used() - base)) >= 7 * moved
    && (base > 0 ==> |st.mem.ctl| >= 2 * (base + 1))
  }

  lemma {:induction false} Account(states: seq<State>, ops: seq<Op>, answers: seq<Option<Pointer>>)
    requires IsRun(states, ops, answers)
    ensures Paid(states[|ops|], Base(states, ops), states[0].Used() + Filled(states, ops), Moved(states, ops))
    decreases |ops|
  {
    if ops != [] {
      var last := |ops| - 1;
      Account(states[..last + 1], ops[..last], answers[..last]);
      SameSums(states, states[..last + 1], ops[..last]);
      AccountStep(states, ops, answers);
    }
  }

  lemma AccountStep(states: seq<State>, ops: seq<Op>, answers: seq<Option<Pointer>>)
    requires IsRun(states, ops, answers) && ops != []
    requires var last := |ops| - 1;
      Paid(states[last], Base(states, ops[..last]), states[0].Used() + Filled(states, ops[..last]),
           Moved(states, ops[..last]))
    ensures Paid(states[|ops|], Base(states, ops), states[0].Used() + Filled(states, ops), Moved(states, ops))
  {
    var last := |ops| - 1;
    StepIsPaid(states[last], ops[last], answers[last], states[|ops|],
               Base(states, ops[..last]), states[0].Used() + Filled(states, ops[..last]), Moved(states, ops[..last]));
  }

  lemma StepIsPaid(st: State, op: Op, answer: Option<Pointer>, next: State, base: nat, filled: nat, moved: nat)
    requires Follows(st, op, answer, next) && Paid(st, base, filled, moved)
    ensures Paid(next, if Rebuilds(st, op) then st.elems else base, filled + FilledBy(st, op), moved + MovedBy(st, op))
  {
    hide Coherent, Writes, InitialSize, FilledBy, OpKey, MapAfter, Lookup;
    if Rebuilds(st, op) {
      AtLeastAskedFor(st.mem.opts, 2 * (st.elems + 1));
      LoadReached(st.Used(), |st.mem.ctl|);
      RebuildIsPaid(filled, st.Used(), base, moved, |st.mem.ctl|, st.elems);
    }
  }

  /** A rebuild moves every entry of the map, once; no other operation moves any. */
  lemma MovedEntries(st: State, op: Op)
    requires Coherent(st.mem, st.m, st.elems, st.deleted)
    ensures MovedBy(st, op) == if (op.Add? || op.Set?) && op.malloc.Some? && st.Full() then |st.m| else 0
  {
    hide Memory.Probing, Memory.Represents, Count;
  }

  /** An operation that does not rebuild writes at most one slot. A lookup writes none, and a deletion leaves a
      tombstone in place of the occupied control byte exactly if it answers with an element. */
  lemma OneSlotWritten(st: State, op: Op, answer: Option<Pointer>, next: State)
    requires Follows(st, op, answer, next) && Coherent(st.mem, st.m, st.elems, st.deleted)
    requires !Rebuilds(st, op)
    ensures |next.mem.ctl| == |st.mem.ctl| == |next.mem.slots| == |st.mem.slots|
    ensures op.Get? ==> next.mem == st.mem
    ensures op.Del? ==> if answer.None? then next.mem == st.mem else
      exists i :: st.mem.Live(i) && next.mem.ctl == st.mem.ctl[i := 1] && next.mem.slots == st.mem.slots
    ensures forall i, j :: 0 <= i < j < |st.mem.ctl| ==>
      || (next.mem.ctl[i] == st.mem.ctl[i] && next.mem.slots[i] == st.mem.slots[i])
      || (next.mem.ctl[j] == st.mem.ctl[j] && next.mem.slots[j] == st.mem.slots[j])
  {
    hide KeyOf, Count, InitialSize, FilledBy, Memory.Represents;
    if op.Del? && !Fails(st, op) {
      HoldsIffMapped(st.mem, Slot(op.key, op.keySize), st.m);
    }
  }

  /** The slots in use grow by what an operation fills, from what a rebuild leaves. */
  lemma FilledSlots(st: State, op: Op, answer: Option<Pointer>, next: State)
    requires Follows(st, op, answer, next)
    ensures FilledBy(st, op) == next.Used() - (if MovedBy(st, op) > 0 || Rebuilds(st, op) then st.elems else st.Used())
  {
    hide Coherent, Writes, OpKey, MapAfter, Lookup;
  }

  /** What a run moves and fills is what its operations do, added up. */
  lemma {:induction false} SumsSplit(states: seq<State>, ops: seq<Op>, k: nat)
    requires |states| >= |ops| && k <= |ops|
    ensures Moved(states, ops) == Moved(states, ops[..k]) + Moved(states[k..], ops[k..])
    ensures Filled(states, ops) == Filled(states, ops[..k]) + Filled(states[k..], ops[k..])
    ensures |ops| == 1 ==>
      Moved(states, ops) == MovedBy(states[0], ops[0]) && Filled(states, ops) == FilledBy(states[0], ops[0])
    decreases |ops|
  {
    hide MovedBy, FilledBy;
    var last := |ops| - 1;
    if k < |ops| {
      SumsSplit(states, ops[..last], k);
      assert ops[..last][..k] == ops[..k] && ops[..last][k..] == ops[k..][..last - k];
      assert states[k..][last - k] == states[last] && ops[k..][last - k] == ops[last];
    } else {
      assert ops[..k] == ops && ops[k..] == [];
    }
    if |ops| == 1 {
      assert ops[..0] == [];
    }
  }

  lemma {:induction false} SameSums(states: seq<State>, prefix: seq<State>, ops: seq<Op>)
    requires |ops| <= |prefix| && prefix <= states
    ensures Moved(states, ops) == Moved(prefix, ops) && Filled(states, ops) == Filled(prefix, ops)
    ensures Base(states, ops) == Base(prefix, ops)
    decreases |ops|
  {
    if ops != [] {
      SameSums(states, prefix, ops[..|ops| - 1]);
    }
  }

  /** However the operations, the hash, the seeds and the failures of malloc fall: the elements moved by
      all rebuilds of a run are at most 17/7 of the EMPTY slots filled, counting those in use at its
      start. A new table starts with none. */
  lemma RebuildsArePaid(states: seq<State>, ops: seq<Op>, answers: seq<Option<Pointer>>)
    requires IsRun(states, ops, answers)
    ensures 7 * Moved(states, ops) <= 17 * (states[0].Used() + Filled(states, ops))
  {
    hide IsRun;
    Account(states, ops, answers);
  }

  /** The answers of a finite map to a run. */
  ghost function MapAnswers(o: Opts, m: map<Key, Pointer>, ops: seq<Op>): seq<Option<Pointer>>
    decreases |ops|
  {
    if ops == [] then []
    else [Lookup(m, OpKey(o, ops[0]))] + MapAnswers(o, MapAfter(o, m, ops[0]), ops[1..])
  }

  lemma FirstOfRun(states: seq<State>, ops: seq<Op>, answers: seq<Option<Pointer>>)
    requires IsRun(states, ops, answers) && ops != [] && !Fails(states[0], ops[0])
    ensures |answers| == |ops| && |states| == |ops| + 1
    ensures var o := states[0].mem.opts;
      && states[1].mem.opts == o
      && answers[0] == Lookup(states[0].m, OpKey(o, ops[0]))
      && states[1].m == MapAfter(o, states[0].m, ops[0])
  {
    hide Coherent, FilledBy, InitialSize, KeyOf, Writes, Fails;
    assert Follows(states[0], ops[0], answers[0], states[1]);
  }

  lemma RestIsRun(states: seq<State>, ops: seq<Op>, answers: seq<Option<Pointer>>)
    requires IsRun(states, ops, answers) && ops != []
    ensures IsRun(states[1..], ops[1..], answers[1..])
  {
    hide Follows, OpKey;
    forall i | 0 <= i < |ops[1..]|
      ensures Follows(states[1..][i], ops[1..][i], answers[1..][i], states[1..][i + 1])
    {
      assert Follows(states[i + 1], ops[i + 1], answers[i + 1], states[i + 2]);
    }
  }

  lemma MapAnswersStep(o: Opts, m: map<Key, Pointer>, ops: seq<Op>, answers: seq<Option<Pointer>>)
    requires ops != [] && answers != [] && answers[0] == Lookup(m, OpKey(o, ops[0]))
    requires answers[1..] == MapAnswers(o, MapAfter(o, m, ops[0]), ops[1..])
    ensures answers == MapAnswers(o, m, ops)
  {
    hide OpKey, MapAfter, Lookup;
    assert answers == [answers[0]] + answers[1..];
  }

  /** Unless an operation needs memory and gets none, a run's answers depend on the map alone: not on the
      hash function, the seeds, the order of the slots or the rebuilds. */
  lemma {:induction false} AnswersOfTheMap(states: seq<State>, ops: seq<Op>, answers: seq<Option<Pointer>>)
    requires IsRun(states, ops, answers)
    requires forall i :: 0 <= i < |ops| ==> !Fails(states[i], ops[i])
    ensures answers == MapAnswers(states[0].mem.opts, states[0].m, ops)
    decreases |ops|
  {
    if ops != [] {
      hide IsRun, Follows, Fails, OpKey, MapAfter, Lookup, MapAnswers;
      FirstOfRun(states, ops, answers);
      RestIsRun(states, ops, answers);
      AnswersOfTheMap(states[1..], ops[1..], answers[1..]);
      MapAnswersStep(states[0].mem.opts, states[0].m, ops, answers);
    }
  }

  // ---- the promised capacity ----

  /** The table is no smaller than its minimum capacity asks. */
  predicate RightSize(st: State) {
    InitialSize(st.mem.opts, |st.mem.ctl|) == |st.mem.ctl|
  }

  lemma InitialSizeIsRight(opts: Opts, n: nat)
    ensures InitialSize(opts, InitialSize(opts, n)) == InitialSize(opts, n)
  {
  }

  lemma StepKeepsRightSize(st: State, op: Op, answer: Option<Pointer>, next: State)
    requires Follows(st, op, answer, next) && RightSize(st)
    ensures RightSize(next) && next.mem.opts == st.mem.opts
  {
    hide Coherent, Writes, InitialSize, FilledBy, OpKey, MapAfter, Lookup;
    InitialSizeIsRight(st.mem.opts, 2 * (st.elems + 1));
  }

  lemma {:induction false} RunKeepsRightSize(states: seq<State>, ops: seq<Op>, answers: seq<Option<Pointer>>, i: nat)
    requires IsRun(states, ops, answers) && RightSize(states[0]) && i <= |ops|
    ensures RightSize(states[i]) && states[i].mem.opts == states[0].mem.opts
  {
    hide Follows, RightSize;
    if i > 0 {
      RunKeepsRightSize(states, ops, answers, i - 1);
      StepKeepsRightSize(states[i - 1], ops[i - 1], answers[i - 1], states[i]);
    }
  }

  /** The minimum capacity holds over every run: an operation that finds fewer slots in use neither
      rebuilds nor fails, whatever malloc does, and answers as the map. */
  lemma CapacityHoldsOverRun(states: seq<State>, ops: seq<Op>, answers: seq<Option<Pointer>>, i: nat)
    requires IsRun(states, ops, answers) && RightSize(states[0]) && i < |ops|
    requires states[i].Used() < states[0].mem.opts.minCapacity
    ensures !Rebuilds(states[i], ops[i]) && !Fails(states[i], ops[i])
    ensures var o := states[0].mem.opts;
      && answers[i] == Lookup(states[i].m, OpKey(o, ops[i]))
      && states[i + 1].m == MapAfter(o, states[i].m, ops[i])
  {
    hide Coherent, Writes, InitialSize, FilledBy, OpKey, MapAfter, Lookup;
    RunKeepsRightSize(states, ops, answers, i);
    CapacityHolds(states[0].mem.opts, states[i].Used(), |states[i].mem.ctl|);
    assert Follows(states[i], ops[i], answers[i], states[i + 1]);
  }

  /** `keys` are the keys of the map, each once. */
  ghost predicate EachOnce(m: map<Key, Pointer>, keys: seq<Key>) {
    && (forall key :: key in m <==> key in keys)
    && (forall i, j :: 0 <= i < j < |keys| ==> keys[i] != keys[j])
  }

  /** Restarting the iteration, taking its first element and deleting it empties the table and yields
      every element once. `keys` are the keys in the order taken. */
  method Drain(t: Table) returns (taken: seq<Pointer>, ghost keys: seq<Key>)
    requires t.Valid()
    modifies t, t.control
    ensures t.Valid() && t.m == map[]
    ensures EachOnce(old(t.m), keys) && |taken| == |keys| == |old(t.m)|
    ensures forall i :: 0 <= i < |taken| ==> taken[i] == old(t.m)[keys[i]]
  {
    hide Coherent, KeyOf, InitialSize, Drained;
    taken, keys := [], [];
    DrainStart(t.m, keys, taken);
    var it, more := First(t);
    while more
      invariant t.Valid() && t.control == old(t.control) && fresh(it)
      invariant Drained(old(t.m), t.m, keys, taken)
      invariant if more then Stands(t.opts, t.m, it) else t.m == map[]
      decreases |t.m|
    {
      ghost var key := KeyOf(t.opts, Slot(it.element.value, it.keySize));
      OneLess(t.m, key);
      DrainStep(old(t.m), t.m, keys, taken, key);
      var e := t.Del(it.element.value, it.keySize);
      taken, keys := taken + [e.value], keys + [key];
      it, more := First(t);
    }
    DrainDone(old(t.m), t.m, keys, taken);
  }

  /** `taken` are the entries that `start` has and `m` has no longer, each once, and `keys` their keys. */
  ghost predicate Drained(start: map<Key, Pointer>, m: map<Key, Pointer>, keys: seq<Key>, taken: seq<Pointer>) {
    && |taken| == |keys| && |keys| + |m| == |start|
    && (forall key :: key in m ==> key in start && m[key] == start[key])
    && (forall key :: key in keys <==> key in start && key !in m)
    && (forall i, j :: 0 <= i < j < |keys| ==> keys[i] != keys[j])
    && (forall i :: 0 <= i < |keys| ==> keys[i] in start && taken[i] == start[keys[i]])
  }

  lemma DrainStart(m: map<Key, Pointer>, keys: seq<Key>, taken: seq<Pointer>)
    requires keys == [] && taken == []
    ensures Drained(m, m, keys, taken)
  {
  }

  lemma DrainStep(start: map<Key, Pointer>, m: map<Key, Pointer>, keys: seq<Key>, taken: seq<Pointer>, key: Key)
    requires Drained(start, m, keys, taken) && key in m
    ensures Drained(start, m - {key}, keys + [key], taken + [m[key]])
  {
    OneLess(m, key);
  }

  lemma DrainDone(start: map<Key, Pointer>, m: map<Key, Pointer>, keys: seq<Key>, taken: seq<Pointer>)
    requires Drained(start, m, keys, taken) && m == map[]
    ensures EachOnce(start, keys) && |taken| == |keys| == |start|
    ensures forall i :: 0 <= i < |taken| ==> taken[i] == start[keys[i]]
  {
  }

  /** A whole iteration yields the table's entries, each once, in the order of its slots from the cursor
      on, and leaves the iterator as it was before the first step. */
  method Traverse(t: Table) returns (visited: seq<Slot>, it: TableIter, ghost keys: seq<Key>)
    requires t.Valid()
    ensures fresh(it) && it.element.None? && it.keySize == 0 && it.internal == 0
    ensures visited == SlotsAt(t.Mem(), Ahead(t.Mem(), t.cursor, 0))
    ensures EachOnce(t.m, keys) && |visited| == |keys|
    ensures forall i :: 0 <= i < |keys| ==>
      keys[i] == KeyOf(t.opts, visited[i]) && t.m[keys[i]] == visited[i].element
  {
    hide Coherent, KeyOf, InitialSize, Ahead, Memory.Probing, Memory.Represents, SlotsAt, Visited;
    ghost var mem := t.Mem();
    it := new TableIter();
    ghost var ahead := Ahead(mem, t.cursor, 0);
    ghost var all, past: seq<int> := ahead, [];
    visited := [];
    VisitStart(mem, all, past, visited);
    var more := t.Iter(it);
    while more
      invariant fresh(it)
      invariant Visited(mem, all, past, ahead, visited)
      invariant if more then Yielded(mem, ahead, it) && ahead[1..] == Ahead(mem, t.cursor, it.internal)
        else ahead == [] && it.element.None? && it.keySize == 0 && it.internal == 0
      decreases |ahead|
    {
      VisitStep(mem, all, past, ahead, visited, Slot(it.element.value, it.keySize));
      visited := visited + [Slot(it.element.value, it.keySize)];
      past, ahead := past + [ahead[0]], ahead[1..];
      more := t.Iter(it);
    }
    VisitDone(mem, all, past, ahead, visited);
    CoherentParts(mem, t.m, t.elemCount, t.deletedCount);
    keys := seq(|visited|, i requires 0 <= i < |visited| => KeyOf(t.opts, visited[i]));
    EntriesOnce(mem, t.m, t.cursor, keys);
  }

  /** The entries in a list of slots. */
  ghost function SlotsAt(mem: Memory, at: seq<int>): (r: seq<Slot>)
    ensures |r| == |at|
  {
    seq(|at|, i requires 0 <= i < |at| =>
      if mem.Live(at[i]) then mem.slots[at[i]].value else Slot(1, 0))
  }

  /** Of the slots `all`, those in `past` were visited. */
  ghost predicate Visited(mem: Memory, all: seq<int>, past: seq<int>, ahead: seq<int>, visited: seq<Slot>) {
    past + ahead == all && visited == SlotsAt(mem, past)
  }

  lemma VisitStart(mem: Memory, all: seq<int>, past: seq<int>, visited: seq<Slot>)
    requires past == [] && visited == []
    ensures Visited(mem, all, past, all, visited)
  {
  }

  lemma VisitStep(mem: Memory, all: seq<int>, past: seq<int>, ahead: seq<int>, visited: seq<Slot>, s: Slot)
    requires Visited(mem, all, past, ahead, visited)
    requires ahead != [] && mem.Live(ahead[0]) && mem.slots[ahead[0]] == Some(s)
    ensures Visited(mem, all, past + [ahead[0]], ahead[1..], visited + [s])
  {
  }

  lemma VisitDone(mem: Memory, all: seq<int>, past: seq<int>, ahead: seq<int>, visited: seq<Slot>)
    requires Visited(mem, all, past, ahead, visited) && ahead == []
    ensures visited == SlotsAt(mem, all)
  {
    assert past == all;
  }

  lemma EntriesOnce(mem: Memory, m: map<Key, Pointer>, cursor: nat, keys: seq<Key>)
    requires Lawful(mem.opts) && mem.Probing() && mem.Represents(m)
    requires var slots := SlotsAt(mem, Ahead(mem, cursor, 0));
      |keys| == |slots| && forall i :: 0 <= i < |keys| ==> keys[i] == KeyOf(mem.opts, slots[i])
    ensures EachOnce(m, keys)
    ensures forall i :: 0 <= i < |keys| ==> m[keys[i]] == SlotsAt(mem, Ahead(mem, cursor, 0))[i].element
  {
    hide KeyOf, Memory.Probing, Ahead;
    var ahead := Ahead(mem, cursor, 0);
    IterationVisitsEachOnce(mem, cursor);
    forall i | 0 <= i < |keys|
      ensures mem.Live(ahead[i]) && keys[i] == KeyOf(mem.opts, mem.slots[ahead[i]].value)
    {
      assert ahead[i] in ahead;
    }
    forall i, j | 0 <= i < j < |keys|
      ensures keys[i] != keys[j]
    {
      OnlyHolder(mem, ahead[i], ahead[j]);
    }
    forall key | key in m
      ensures key in keys
    {
      var at :| mem.Live(at) && KeyOf(mem.opts, mem.slots[at].value) == key;
      assert at in ahead;
      var i :| 0 <= i < |ahead| && ahead[i] == at;
      assert keys[i] == key;
    }
  }

  /** Starts an iteration. */
  method First(t: Table) returns (it: TableIter, more: bool)
    requires t.Valid()
    ensures fresh(it)
    ensures if more then Stands(t.opts, t.m, it) else t.m == map[]
  {
    hide Coherent, KeyOf, InitialSize, Ahead, Memory.Probing, SameKey;
    CoherentParts(t.Mem(), t.m, t.elemCount, t.deletedCount);
    it := new TableIter();
    more := t.Iter(it);
    if !more {
      NothingAhead(t.Mem(), t.cursor, t.m);
    }
  }

  /** The iterator holds an entry of the map. */
  ghost predicate Stands(o: Opts, m: map<Key, Pointer>, it: TableIter)
    reads it
  {
    it.element.Some? && Lookup(m, KeyOf(o, Slot(it.element.value, it.keySize))) == it.element
  }

  lemma OneLess(m: map<Key, Pointer>, key: Key)
    requires key in m
    ensures |m - {key}| == |m| - 1
  {
  }

  lemma NothingAhead(mem: Memory, cursor: nat, m: map<Key, Pointer>)
    requires mem.Represents(m) && Ahead(mem, cursor, 0) == []
    ensures m == map[]
  {
    AheadIsExact(mem, cursor, 0);
    assert forall i :: !mem.Live(i);
    assert forall key :: key !in m;
  }
}
