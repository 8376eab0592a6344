/** The order in which an iteration visits the table's slots. */
module TableOrder {
  import Arith
  import opened Wrappers
  import opened TableSpec

  /** The slot an iteration looks at in its `i`-th step. */
  function Visit(n: nat, cursor: nat, i: nat): nat
    requires n > 0
  {
    (i + cursor) % n
  }

  /** The occupied slots that an iteration has yet to yield when it stands at its `i`-th step. */
  function Ahead(mem: Memory, cursor: nat, i: nat): seq<int>
    decreases |mem.ctl| - i
  {
    if i >= |mem.ctl| then []
    else
      var at := Visit(|mem.ctl|, cursor, i);
      (if mem.Live(at) then [at] else []) + Ahead(mem, cursor, i + 1)
  }

  /** The step at which an iteration looks at a slot. */
  function StepOf(n: nat, cursor: nat, at: nat): nat
    requires at < n
  {
    var c := cursor % n;
    if c <= at then at - c else at + n - c
  }

  lemma VisitAtStep(n: nat, cursor: nat, i: nat)
    requires i < n
    ensures Visit(n, cursor, i) < n && StepOf(n, cursor, Visit(n, cursor, i)) == i
    ensures forall at :: 0 <= at < n && StepOf(n, cursor, at) == i ==> at == Visit(n, cursor, i)
  {
    var q, c := Arith.DivMod(cursor, n);
    if i + c < n {
      Arith.DivModUnique(i + cursor, n, q, i + c);
    } else {
      Arith.MulDifference(q, -1, n);
      Arith.DivModUnique(i + cursor, n, q + 1, i + c - n);
    }
  }

  /** From any cursor, an iteration has exactly the occupied slots of its later steps ahead, each
      once. */
  lemma {:induction false} AheadIsExact(mem: Memory, cursor: nat, i: nat)
    ensures forall at :: at in Ahead(mem, cursor, i) <==> mem.Live(at) && StepOf(|mem.ctl|, cursor, at) >= i
    ensures forall j, k :: 0 <= j < k < |Ahead(mem, cursor, i)| ==>
      Ahead(mem, cursor, i)[j] != Ahead(mem, cursor, i)[k]
    decreases |mem.ctl| - i
  {
    if i < |mem.ctl| {
      VisitAtStep(|mem.ctl|, cursor, i);
      AheadIsExact(mem, cursor, i + 1);
    }
  }

  /** A whole iteration visits every occupied slot exactly once, whatever the cursor. */
  lemma IterationVisitsEachOnce(mem: Memory, cursor: nat)
    ensures forall at :: at in Ahead(mem, cursor, 0) <==> mem.Live(at)
    ensures forall j, k :: 0 <= j < k < |Ahead(mem, cursor, 0)| ==>
      Ahead(mem, cursor, 0)[j] != Ahead(mem, cursor, 0)[k]
  {
    AheadIsExact(mem, cursor, 0);
  }

  // ---- moving the elements to another table, in iteration order ----

  /** With the slots in `ahead` still to come, `part` holds the entries of all the others. */
  ghost predicate Transferred(mem: Memory, m: map<Key, Pointer>, ahead: seq<int>, part: map<Key, Pointer>) {
    && (forall i :: i in ahead ==> mem.Live(i))
    && (forall j, k :: 0 <= j < k < |ahead| ==> ahead[j] != ahead[k])
    && (forall key :: key in part ==> key in m && part[key] == m[key])
    && (forall i :: mem.Live(i) ==> (KeyOf(mem.opts, mem.slots[i].value) in part <==> i !in ahead))
  }

  lemma TransferStart(mem: Memory, m: map<Key, Pointer>, cursor: nat)
    ensures Transferred(mem, m, Ahead(mem, cursor, 0), map[])
  {
    AheadIsExact(mem, cursor, 0);
  }

  lemma TransferStep(mem: Memory, m: map<Key, Pointer>, ahead: seq<int>, part: map<Key, Pointer>)
    requires Lawful(mem.opts) && mem.Probing() && mem.Represents(m)
    requires ahead != [] && mem.Live(ahead[0]) && Transferred(mem, m, ahead, part)
    ensures var s := mem.slots[ahead[0]].value; var key := KeyOf(mem.opts, s);
      && key !in part && |part| < |m|
      && Transferred(mem, m, ahead[1..], part[key := s.element])
  {
    hide KeyOf, Memory.Probing;
    var s := mem.slots[ahead[0]].value;
    var key := KeyOf(mem.opts, s);
    assert ahead[0] in ahead;
    SmallerMap(part, m, key);
    forall i | mem.Live(i)
      ensures KeyOf(mem.opts, mem.slots[i].value) == key <==> i == ahead[0]
    {
      OnlyHolder(mem, i, ahead[0]);
    }
    assert forall i :: i in ahead <==> i == ahead[0] || i in ahead[1..];
  }

  lemma OnlyHolder(mem: Memory, i: int, j: int)
    requires Lawful(mem.opts) && mem.Probing() && mem.Live(i) && mem.Live(j)
    ensures KeyOf(mem.opts, mem.slots[i].value) == KeyOf(mem.opts, mem.slots[j].value) <==> i == j
  {
    KeysAgree(mem.opts, mem.slots[i].value, mem.slots[j].value);
  }

  lemma SmallerMap(part: map<Key, Pointer>, m: map<Key, Pointer>, key: Key)
    requires part.Keys <= m.Keys && key in m && key !in part
    ensures |part| < |m|
  {
    assert key in m.Keys && key !in part.Keys;
    SubsetSize(part.Keys, m.Keys);
  }

  lemma {:induction false} SubsetSize<T>(a: set<T>, b: set<T>)
    requires a < b
    ensures |a| < |b|
  {
    var x :| x in b && x !in a;
    if a != {} {
      var y :| y in a;
      SubsetSize(a - {y}, b - {y});
    }
  }

  lemma TransferDone(mem: Memory, m: map<Key, Pointer>, part: map<Key, Pointer>)
    requires mem.Represents(m) && Transferred(mem, m, [], part)
    ensures part == m
  {
  }

  lemma OccupiedIsLive(mem: Memory, at: nat)
    requires mem.Probing() && at < |mem.ctl|
    ensures mem.Live(at) <==> KindOf(mem.ctl[at]) == Occupied
  {
  }
}
