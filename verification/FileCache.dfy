/** The cache of open region files (src/region/file_cache.c), used by one caller at a time. The clock,
    the age at which a file may be evicted, and the outcomes of opening, closing and malloc are
    parameters. */
module FileCache {
  import opened Wrappers
  import FilenameSpec

  datatype Result = Ok | InvalidUsage | Malformed | NotFound

  /** `struct file_cache`; `rf` is the handle of an open file, or none. */
  datatype Slot = Slot(rf: Option<nat>, lastAccess: int, pos: seq<int>)

  /** What the operating system has seen: the position each handle was opened for, and how often each
      handle was closed. Handles from `next` on are yet to be opened. */
  datatype Log = Log(files: map<nat, seq<int>>, closed: multiset<nat>, next: nat)

  function Opened(log: Log, pos: seq<int>): Log {
    Log(log.files[log.next := pos], log.closed, log.next + 1)
  }

  function Closed(log: Log, rf: nat): Log {
    log.(closed := log.closed + multiset{rf})
  }

  predicate LiveAt(slots: seq<Slot>, i: int) {
    0 <= i < |slots| && slots[i].rf.Some?
  }

  /** Live slots have different positions and hold an open handle for theirs; every handle that was
      opened is in a live slot or was closed exactly once. */
  ghost predicate Coherent(slots: seq<Slot>, log: Log, dims: nat) {
    && (forall i :: LiveAt(slots, i) ==>
          && |slots[i].pos| == dims
          && slots[i].rf.value in log.files
          && log.files[slots[i].rf.value] == slots[i].pos
          && log.closed[slots[i].rf.value] == 0)
    && (forall i, j :: LiveAt(slots, i) && LiveAt(slots, j) && slots[i].pos == slots[j].pos ==> i == j)
    && (forall h: nat :: h in log.files <==> h < log.next)
    && (forall h :: h in log.files ==> log.closed[h] <= 1)
    && (forall h :: h in log.files && log.closed[h] == 0 ==> exists i :: LiveAt(slots, i) && slots[i].rf.value == h)
    && (forall h :: h in log.closed ==> h in log.files)
  }

  /** Closing a slot's file and emptying the slot. */
  lemma EvictCoherent(slots: seq<Slot>, log: Log, dims: nat, i: nat)
    requires Coherent(slots, log, dims) && LiveAt(slots, i)
    ensures Coherent(slots[i := slots[i].(rf := None)], Closed(log, slots[i].rf.value), dims)
  {
    var slots' := slots[i := slots[i].(rf := None)];
    var (h, log') := (slots[i].rf.value, Closed(log, slots[i].rf.value));
    forall j | LiveAt(slots', j)
      ensures LiveAt(slots, j) && j != i && slots[j] == slots'[j] && slots[j].rf.value != h
    {
      assert LiveAt(slots, j);
    }
    forall k | k in log'.files && log'.closed[k] == 0
      ensures exists j :: LiveAt(slots', j) && slots'[j].rf.value == k
    {
      var j :| LiveAt(slots, j) && slots[j].rf.value == k;
      assert LiveAt(slots', j);
    }
  }

  /** A newly opened file takes an empty slot. */
  lemma FillCoherent(slots: seq<Slot>, log: Log, dims: nat, e: nat, now: int, pos: seq<int>)
    requires Coherent(slots, log, dims) && |pos| == dims
    requires e < |slots| && slots[e].rf.None?
    requires forall i :: LiveAt(slots, i) ==> slots[i].pos != pos
    ensures Coherent(slots[e := Slot(Some(log.next), now, pos)], Opened(log, pos), dims)
  {
    var slots' := slots[e := Slot(Some(log.next), now, pos)];
    var log' := Opened(log, pos);
    forall j | LiveAt(slots', j)
      ensures j == e || (LiveAt(slots, j) && slots[j] == slots'[j])
    {
      assert j != e ==> LiveAt(slots, j);
    }
    forall k | k in log'.files && log'.closed[k] == 0
      ensures exists j :: LiveAt(slots', j) && slots'[j].rf.value == k
    {
      if k == log.next {
        assert LiveAt(slots', e);
      } else {
        var j :| LiveAt(slots, j) && slots[j].rf.value == k;
        assert LiveAt(slots', j);
      }
    }
  }

  /** An empty slot at the end changes nothing. */
  lemma GrowCoherent(slots: seq<Slot>, log: Log, dims: nat, s: Slot)
    requires Coherent(slots, log, dims) && s.rf.None?
    ensures Coherent(slots + [s], log, dims)
  {
    var slots' := slots + [s];
    assert forall i :: LiveAt(slots', i) <==> LiveAt(slots, i);
  }

  /** A file that was opened and closed at once. */
  lemma OpenCloseCoherent(slots: seq<Slot>, log: Log, dims: nat, pos: seq<int>)
    requires Coherent(slots, log, dims)
    ensures Coherent(slots, Closed(Opened(log, pos), log.next), dims)
  {
  }

  lemma TouchCoherent(slots: seq<Slot>, log: Log, dims: nat, i: nat, now: int)
    requires Coherent(slots, log, dims) && LiveAt(slots, i)
    ensures Coherent(slots[i := slots[i].(lastAccess := now)], log, dims)
  {
    var slots' := slots[i := slots[i].(lastAccess := now)];
    assert forall j :: LiveAt(slots', j) <==> LiveAt(slots, j);
  }

  /** Different live slots belong to files of different names. */
  lemma LiveNamesDiffer(slots: seq<Slot>, log: Log, dims: nat, prefix: seq<char>, extension: seq<char>, i: int, j: int)
    requires Coherent(slots, log, dims) && LiveAt(slots, i) && LiveAt(slots, j) && i != j
    ensures FilenameSpec.Filename(prefix, extension, slots[i].pos)
      != FilenameSpec.Filename(prefix, extension, slots[j].pos)
  {
    FilenameSpec.FilenameInjective(prefix, extension, slots[i].pos, slots[j].pos);
  }

  // ---- one call ----

  /** A call of `region_file_get` for `pos`, and what the calls it makes answer: the clock, whether a
      slot last used at one time is evictable at another, region_file_close of each handle,
      region_file_open, and malloc. */
  datatype Request = Request(
    pos: seq<int>,
    clock: Option<int>,
    stale: (int, int) -> bool,
    closing: nat -> Result,
    opening: Result,
    malloc: bool)

  datatype Outcome = Outcome(res: Result, rf: Option<nat>, slots: seq<Slot>, log: Log)

  predicate Evictable(s: Slot, q: Request)
    requires q.clock.Some?
  {
    s.rf.Some? && s.pos != q.pos && q.stale(s.lastAccess, q.clock.value)
  }

  predicate Hit(s: Slot, q: Request) {
    s.rf.Some? && s.pos == q.pos
  }

  /** A slot that ends the search: it holds the file, or it is stale and fails to close. */
  predicate Stops(s: Slot, q: Request)
    requires q.clock.Some?
  {
    Hit(s, q) || (Evictable(s, q) && !q.closing(s.rf.value).Ok?)
  }

  /** The first slot from `i` on that ends the search. */
  function Stop(slots: seq<Slot>, q: Request, i: nat): (n: nat)
    requires q.clock.Some? && i <= |slots|
    ensures i <= n <= |slots|
    ensures forall j :: i <= j < n ==> !Stops(slots[j], q)
    ensures n < |slots| ==> Stops(slots[n], q)
    decreases |slots| - i
  {
    if i == |slots| || Stops(slots[i], q) then i
    else Stop(slots, q, i + 1)
  }

  /** The slots after the evictable ones among the first `n` were emptied. */
  function SweptSlots(slots: seq<Slot>, q: Request, n: nat): (after: seq<Slot>)
    requires q.clock.Some? && n <= |slots|
    ensures |after| == |slots|
  {
    seq(|slots|, j requires 0 <= j < |slots| =>
      if j < n && Evictable(slots[j], q) then slots[j].(rf := None) else slots[j])
  }

  function SweptLog(slots: seq<Slot>, q: Request, n: nat, log: Log): Log
    requires q.clock.Some? && n <= |slots|
  {
    if n == 0 then log
    else if Evictable(slots[n - 1], q) then Closed(SweptLog(slots, q, n - 1, log), slots[n - 1].rf.value)
    else SweptLog(slots, q, n - 1, log)
  }

  function FirstFree(slots: seq<Slot>, i: nat): (e: nat)
    requires i <= |slots|
    ensures i <= e <= |slots|
    ensures forall j :: i <= j < e ==> slots[j].rf.Some?
    ensures e < |slots| ==> slots[e].rf.None?
    decreases |slots| - i
  {
    if i == |slots| || slots[i].rf.None? then i else FirstFree(slots, i + 1)
  }

  /** What `region_file_get` answers and leaves behind. A slot emptied by this very call is not reused
      by it. */
  function After(slots: seq<Slot>, log: Log, q: Request): Outcome {
    if q.clock.None? then Outcome(InvalidUsage, None, slots, log)
    else
      var n := Stop(slots, q, 0);
      var kept := SweptSlots(slots, q, n);
      var swept := SweptLog(slots, q, n, log);
      if n < |slots| && Hit(slots[n], q) then
        Outcome(Ok, slots[n].rf, kept[n := slots[n].(lastAccess := q.clock.value)], swept)
      else if n < |slots| then
        Outcome(q.closing(slots[n].rf.value), None, SweptSlots(slots, q, n + 1), SweptLog(slots, q, n + 1, log))
      else if !q.opening.Ok? then
        Outcome(q.opening, None, kept, swept)
      else
        var e := FirstFree(slots, 0);
        var s := Slot(Some(log.next), q.clock.value, q.pos);
        if e < |slots| then
          Outcome(Ok, Some(log.next), kept[e := s], Opened(swept, q.pos))
        else if q.malloc then
          Outcome(Ok, Some(log.next), kept + [s], Opened(swept, q.pos))
        else
          Outcome(InvalidUsage, None, kept, Closed(Opened(swept, q.pos), log.next))
  }

  lemma SweepStart(slots: seq<Slot>, q: Request, log: Log)
    requires q.clock.Some?
    ensures SweptSlots(slots, q, 0) == slots && SweptLog(slots, q, 0, log) == log
    ensures Stop(slots, q, |slots|) == FirstFree(slots, |slots|) == |slots|
  {
  }

  /** One step of the search. */
  lemma SweepStep(slots: seq<Slot>, q: Request, i: nat, log: Log)
    requires q.clock.Some? && i < |slots|
    ensures var (s, kept, swept) := (slots[i], SweptSlots(slots, q, i), SweptLog(slots, q, i, log));
      && kept[i] == s
      && SweptSlots(slots, q, i + 1) == (if Evictable(s, q) then kept[i := s.(rf := None)] else kept)
      && SweptLog(slots, q, i + 1, log) == (if Evictable(s, q) then Closed(swept, s.rf.value) else swept)
      && FirstFree(slots, i) == (if s.rf.None? then i else FirstFree(slots, i + 1))
      && Stop(slots, q, i) == (if Stops(s, q) then i else Stop(slots, q, i + 1))
  {
  }

  lemma {:induction false} SweptLogOpens(slots: seq<Slot>, q: Request, n: nat, log: Log)
    requires q.clock.Some? && n <= |slots|
    ensures SweptLog(slots, q, n, log).files == log.files
    ensures SweptLog(slots, q, n, log).next == log.next
  {
    if n > 0 {
      SweptLogOpens(slots, q, n - 1, log);
    }
  }

  lemma {:induction false} SweptCoherent(slots: seq<Slot>, q: Request, n: nat, log: Log, dims: nat)
    requires q.clock.Some? && n <= |slots| && Coherent(slots, log, dims)
    ensures Coherent(SweptSlots(slots, q, n), SweptLog(slots, q, n, log), dims)
  {
    hide Coherent;
    if n == 0 {
      assert SweptSlots(slots, q, 0) == slots;
    } else {
      SweptCoherent(slots, q, n - 1, log, dims);
      var before := SweptSlots(slots, q, n - 1);
      if Evictable(slots[n - 1], q) {
        EvictCoherent(before, SweptLog(slots, q, n - 1, log), dims, n - 1);
        assert SweptSlots(slots, q, n) == before[n - 1 := slots[n - 1].(rf := None)];
      } else {
        assert SweptSlots(slots, q, n) == before;
      }
    }
  }

  /** Every call, whatever fails in it, keeps the slots and the open files in step. */
  lemma AfterCoherent(slots: seq<Slot>, log: Log, q: Request, dims: nat)
    requires Coherent(slots, log, dims) && |q.pos| == dims
    ensures Coherent(After(slots, log, q).slots, After(slots, log, q).log, dims)
  {
    hide Coherent;
    if q.clock.Some? {
      var n := Stop(slots, q, 0);
      var (kept, swept) := (SweptSlots(slots, q, n), SweptLog(slots, q, n, log));
      SweptCoherent(slots, q, n, log, dims);
      SweptLogOpens(slots, q, n, log);
      if n < |slots| && Hit(slots[n], q) {
        TouchCoherent(kept, swept, dims, n, q.clock.value);
      } else if n < |slots| {
        SweptCoherent(slots, q, n + 1, log, dims);
      } else if q.opening.Ok? {
        PlaceCoherent(slots, kept, swept, q, dims);
      }
    }
  }

  lemma PlaceCoherent(slots: seq<Slot>, kept: seq<Slot>, swept: Log, q: Request, dims: nat)
    requires q.clock.Some? && Stop(slots, q, 0) == |slots| && kept == SweptSlots(slots, q, |slots|)
    requires Coherent(kept, swept, dims) && |q.pos| == dims
    ensures var (e, s) := (FirstFree(slots, 0), Slot(Some(swept.next), q.clock.value, q.pos));
      if e < |slots| then Coherent(kept[e := s], Opened(swept, q.pos), dims)
      else
        && Coherent(kept + [s], Opened(swept, q.pos), dims)
        && Coherent(kept, Closed(Opened(swept, q.pos), swept.next), dims)
  {
    hide Coherent;
    var e := FirstFree(slots, 0);
    var s := Slot(Some(swept.next), q.clock.value, q.pos);
    if e < |slots| {
      FillCoherent(kept, swept, dims, e, q.clock.value, q.pos);
    } else {
      var blank := s.(rf := None);
      GrowCoherent(kept, swept, dims, blank);
      FillCoherent(kept + [blank], swept, dims, e, q.clock.value, q.pos);
      assert (kept + [blank])[e := s] == kept + [s];
      OpenCloseCoherent(kept, swept, dims, q.pos);
    }
  }

  /** A successful call answers the open handle of the file at `pos`, which its slot now holds. */
  lemma AfterAnswers(slots: seq<Slot>, log: Log, q: Request, dims: nat)
    requires Coherent(slots, log, dims) && |q.pos| == dims
    requires After(slots, log, q).res.Ok?
    ensures var a := After(slots, log, q);
      && a.rf.Some? && q.clock.Some?
      && Slot(a.rf, q.clock.value, q.pos) in a.slots
      && a.rf.value in a.log.files && a.log.files[a.rf.value] == q.pos && a.log.closed[a.rf.value] == 0
  {
    AfterCoherent(slots, log, q, dims);
    var a := After(slots, log, q);
    var n := Stop(slots, q, 0);
    var i := if n < |slots| then n else FirstFree(slots, 0);
    assert a.slots[i] == Slot(a.rf, q.clock.value, q.pos);
    assert LiveAt(a.slots, i);
  }

  /** Exactly when a call succeeds: the clock works, and either the file is in a slot and every stale
      slot before that one closes, or it is not, every stale slot closes, the file opens, and there was
      an empty slot or memory for one more. */
  lemma AfterSucceeds(slots: seq<Slot>, log: Log, q: Request, i: nat)
    requires i <= |slots|
    requires forall j :: 0 <= j < i ==> !Hit(slots[j], q)
    requires i < |slots| ==> Hit(slots[i], q)
    ensures After(slots, log, q).res.Ok? <==>
      && q.clock.Some?
      && (forall j :: 0 <= j < i && Evictable(slots[j], q) ==> q.closing(slots[j].rf.value).Ok?)
      && (i < |slots| || (q.opening.Ok? && (q.malloc || exists j :: 0 <= j < |slots| && slots[j].rf.None?)))
  {
  }

  /** A file that is in a slot is answered from there: it stays in its slot whatever fails, and no file
      is opened. */
  lemma CachedIsReused(slots: seq<Slot>, log: Log, q: Request, dims: nat, i: nat)
    requires Coherent(slots, log, dims) && i < |slots| && Hit(slots[i], q)
    ensures var a := After(slots, log, q);
      && a.log.files == log.files
      && i < |a.slots| && a.slots[i].rf == slots[i].rf && a.slots[i].pos == q.pos
      && (a.res.Ok? ==> a.rf == slots[i].rf)
  {
    assert LiveAt(slots, i);
    if q.clock.Some? {
      var n := Stop(slots, q, 0);
      assert n <= i;
      SweptLogOpens(slots, q, n, log);
      if n < |slots| && Hit(slots[n], q) {
        assert LiveAt(slots, n);
        assert n == i;
      } else {
        SweptLogOpens(slots, q, n + 1, log);
      }
    }
  }

  /** A file that is in no slot is opened once, if the search gets that far. */
  lemma UncachedIsOpened(slots: seq<Slot>, log: Log, q: Request)
    requires forall i :: 0 <= i < |slots| ==> !Hit(slots[i], q)
    ensures var a := After(slots, log, q);
      && (a.log.files == log.files || a.log.files == log.files[log.next := q.pos])
      && (a.res.Ok? ==> a.rf == Some(log.next) && a.log.files == log.files[log.next := q.pos])
  {
    if q.clock.Some? {
      var n := Stop(slots, q, 0);
      SweptLogOpens(slots, q, n, log);
      if n < |slots| {
        SweptLogOpens(slots, q, n + 1, log);
      }
    }
  }

  // ---- the other positions ----

  lemma {:induction false} SweptIsClosed(slots: seq<Slot>, q: Request, n: nat, log: Log, j: nat)
    requires q.clock.Some? && j < n <= |slots| && Evictable(slots[j], q)
    ensures SweptLog(slots, q, n, log).closed[slots[j].rf.value] > 0
  {
    if j < n - 1 {
      SweptIsClosed(slots, q, n - 1, log, j);
    }
  }

  /** Another position's slot after the call: if it is live it was so before, untouched; one that is gone
      was stale, and its file is closed. */
  lemma OthersKept(slots: seq<Slot>, log: Log, q: Request, dims: nat, i: nat)
    requires Coherent(slots, log, dims) && |q.pos| == dims
    requires i < |slots| && slots[i].rf.Some? && slots[i].pos != q.pos
    ensures var a := After(slots, log, q);
      && i < |a.slots|
      && (a.slots[i] == slots[i] ||
          (q.clock.Some? && Evictable(slots[i], q) && a.slots[i].rf.None? && a.log.closed[slots[i].rf.value] == 1))
  {
    AfterCoherent(slots, log, q, dims);
    assert LiveAt(slots, i);
    var h := slots[i].rf.value;
    var a := After(slots, log, q);
    hide SweptLog;
    if q.clock.Some? {
      var n := Stop(slots, q, 0);
      var m := if n < |slots| && !Hit(slots[n], q) then n + 1 else n;
      if i < m && Evictable(slots[i], q) {
        SweptIsClosed(slots, q, m, log, i);
        SweptLogOpens(slots, q, m, log);
        assert a.log.closed[h] > 0;
      }
    }
  }

  /** No slot is filled for a position other than the one asked for. */
  lemma OthersNotAdded(slots: seq<Slot>, log: Log, q: Request, i: nat)
    requires i < |After(slots, log, q).slots|
    requires var s := After(slots, log, q).slots[i]; s.rf.Some? && s.pos != q.pos
    ensures i < |slots| && slots[i] == After(slots, log, q).slots[i]
  {
  }

  /** A file of another position that is not stale stays in its slot, untouched, whatever else happens. */
  lemma FreshIsKept(slots: seq<Slot>, log: Log, q: Request, dims: nat, i: nat)
    requires Coherent(slots, log, dims) && |q.pos| == dims
    requires i < |slots| && slots[i].rf.Some? && slots[i].pos != q.pos
    requires q.clock.Some? ==> !q.stale(slots[i].lastAccess, q.clock.value)
    ensures var a := After(slots, log, q);
      i < |a.slots| && a.slots[i] == slots[i] && a.log.closed[slots[i].rf.value] == 0
  {
    OthersKept(slots, log, q, dims, i);
    AfterCoherent(slots, log, q, dims);
    assert LiveAt(After(slots, log, q).slots, i);
  }

  /** A call that succeeds in opening a file has emptied every stale slot and closed its file. */
  lemma StaleIsClosed(slots: seq<Slot>, log: Log, q: Request, dims: nat, i: nat)
    requires Coherent(slots, log, dims) && |q.pos| == dims
    requires After(slots, log, q).res.Ok? && forall j :: 0 <= j < |slots| ==> slots[j].rf.None? || slots[j].pos != q.pos
    requires i < |slots| && slots[i].rf.Some? && q.stale(slots[i].lastAccess, q.clock.value)
    ensures var a := After(slots, log, q);
      i < |a.slots| && a.slots[i].rf.None? && a.log.closed[slots[i].rf.value] == 1
  {
    hide SweptLog;
    OthersKept(slots, log, q, dims, i);
    assert Stop(slots, q, 0) == |slots|;
  }

  /** A file that is opened goes to the first slot that was empty before the call, or to a new one at the
      end if none was; the position, the handle and the time are the call's. */
  lemma OpenedGoesFirst(slots: seq<Slot>, log: Log, q: Request, e: nat)
    requires After(slots, log, q).res.Ok? && forall j :: 0 <= j < |slots| ==> slots[j].rf.None? || slots[j].pos != q.pos
    requires e <= |slots| && (forall j :: 0 <= j < e ==> slots[j].rf.Some?) && (e < |slots| ==> slots[e].rf.None?)
    ensures var a := After(slots, log, q);
      && |a.slots| == (if e < |slots| then |slots| else |slots| + 1)
      && q.clock.Some? && a.slots[e] == Slot(Some(log.next), q.clock.value, q.pos)
  {
    if q.clock.Some? {
      assert Stop(slots, q, 0) == |slots|;
      assert FirstFree(slots, 0) == e;
    }
  }

  /** Which failure a failing call reports: that of the clock; the first stale slot's that does not close,
      before the file was found; that of opening; or that of memory. */
  lemma FailureReported(slots: seq<Slot>, log: Log, q: Request)
    requires !After(slots, log, q).res.Ok?
    ensures var a := After(slots, log, q);
      && a.rf.None?
      && if q.clock.None? then a == Outcome(InvalidUsage, None, slots, log)
         else
           || (exists i :: 0 <= i < |slots| && slots[i].rf.Some? && slots[i].pos != q.pos
                 && q.stale(slots[i].lastAccess, q.clock.value) && a.res == q.closing(slots[i].rf.value)
                 && i < |a.slots| && a.slots[i].rf.None?
                 && (forall j :: 0 <= j < i && slots[j].rf.Some? ==> slots[j].pos != q.pos)
                 && (forall j :: 0 <= j < i && slots[j].rf.Some? && q.stale(slots[j].lastAccess, q.clock.value) ==>
                       q.closing(slots[j].rf.value).Ok?))
           || (!q.opening.Ok? && a.res == q.opening && |a.slots| == |slots|)
           || (q.opening.Ok? && !q.malloc && a.res == InvalidUsage && |a.slots| == |slots|)
  {
    if q.clock.Some? {
      var n := Stop(slots, q, 0);
      if n < |slots| {
        assert Stops(slots[n], q) && !Hit(slots[n], q);
        forall j | 0 <= j < n && slots[j].rf.Some?
          ensures slots[j].pos != q.pos
          ensures q.stale(slots[j].lastAccess, q.clock.value) ==> q.closing(slots[j].rf.value).Ok?
        {
          assert !Stops(slots[j], q);
        }
      }
    }
  }

  /** A file found in its slot is stamped with the time of the call. */
  lemma HitIsStamped(slots: seq<Slot>, log: Log, q: Request, i: nat)
    requires After(slots, log, q).res.Ok? && i < |slots| && slots[i].rf.Some? && slots[i].pos == q.pos
    requires forall j :: 0 <= j < i ==> slots[j].rf.None? || slots[j].pos != q.pos
    ensures var a := After(slots, log, q);
      q.clock.Some? && |a.slots| == |slots| && a.rf == slots[i].rf
      && a.slots[i] == Slot(slots[i].rf, q.clock.value, q.pos)
  {
    if q.clock.Some? {
      var n := Stop(slots, q, 0);
      assert Stops(slots[i], q);
      assert n <= i;
    }
  }

  // ---- whole runs ----

  /** The slots and the log after a run of calls. */
  function Run(slots: seq<Slot>, log: Log, qs: seq<Request>): (seq<Slot>, Log)
    decreases |qs|
  {
    if qs == [] then (slots, log)
    else
      var a := After(slots, log, qs[0]);
      Run(a.slots, a.log, qs[1..])
  }

  /** A run of two parts is one after the other, and a run of one call is that call. */
  lemma {:induction false} RunSplits(slots: seq<Slot>, log: Log, qs: seq<Request>, rs: seq<Request>)
    ensures var (s, l) := Run(slots, log, qs); Run(slots, log, qs + rs) == Run(s, l, rs)
    ensures |qs| == 1 ==>
      Run(slots, log, qs) == (After(slots, log, qs[0]).slots, After(slots, log, qs[0]).log)
    decreases |qs|
  {
    hide After;
    if qs == [] {
      assert qs + rs == rs;
    } else {
      var a := After(slots, log, qs[0]);
      assert (qs + rs)[1..] == qs[1..] + rs;
      RunSplits(a.slots, a.log, qs[1..], rs);
    }
  }

  predicate Shaped(qs: seq<Request>, dims: nat) {
    forall i :: 0 <= i < |qs| ==> |qs[i].pos| == dims
  }

  lemma {:induction false} RunCoherent(slots: seq<Slot>, log: Log, qs: seq<Request>, dims: nat)
    requires Coherent(slots, log, dims) && Shaped(qs, dims)
    ensures Coherent(Run(slots, log, qs).0, Run(slots, log, qs).1, dims)
    decreases |qs|
  {
    hide Coherent, After;
    if qs != [] {
      AfterCoherent(slots, log, qs[0], dims);
      var a := After(slots, log, qs[0]);
      RunCoherent(a.slots, a.log, qs[1..], dims);
    }
  }

  /** Closing what is left in slots `i` and later. */
  function CloseAll(slots: seq<Slot>, log: Log, i: nat): Log
    requires i <= |slots|
    decreases |slots| - i
  {
    if i == |slots| then log
    else CloseAll(slots, if slots[i].rf.Some? then Closed(log, slots[i].rf.value) else log, i + 1)
  }

  /** The first failure to close among slots `i` and later. */
  function FirstFailure(slots: seq<Slot>, closing: nat -> Result, i: nat): (res: Result)
    requires i <= |slots|
    ensures res.Ok? <==> forall j :: i <= j < |slots| && slots[j].rf.Some? ==> closing(slots[j].rf.value).Ok?
    ensures !res.Ok? ==> exists k ::
      && i <= k < |slots| && slots[k].rf.Some? && res == closing(slots[k].rf.value)
      && (forall j :: i <= j < k && slots[j].rf.Some? ==> closing(slots[j].rf.value).Ok?)
    decreases |slots| - i
  {
    if i == |slots| then Ok
    else if slots[i].rf.Some? && !closing(slots[i].rf.value).Ok? then closing(slots[i].rf.value)
    else FirstFailure(slots, closing, i + 1)
  }

  /** Slots as they would be had the first `i` been emptied. */
  function Emptied(slots: seq<Slot>, i: nat): (after: seq<Slot>)
    requires i <= |slots|
    ensures |after| == |slots|
  {
    seq(|slots|, j requires 0 <= j < |slots| => if j < i then slots[j].(rf := None) else slots[j])
  }

  /** Destroying the cache closes every handle that is open, once. */
  lemma {:induction false} CloseAllOnce(slots: seq<Slot>, log: Log, dims: nat, i: nat)
    requires i <= |slots| && Coherent(Emptied(slots, i), log, dims)
    ensures CloseAll(slots, log, i).files == log.files
    ensures forall h: nat :: h in log.files <==> h < CloseAll(slots, log, i).next
    ensures forall h :: h in log.files ==> CloseAll(slots, log, i).closed[h] == 1
    ensures forall h :: h in CloseAll(slots, log, i).closed ==> h in log.files
    decreases |slots| - i
  {
    var now := Emptied(slots, i);
    if i == |slots| {
      assert forall j :: !LiveAt(now, j);
    } else {
      var then' := now[i := now[i].(rf := None)];
      assert Emptied(slots, i + 1) == then';
      if slots[i].rf.Some? {
        EvictCoherent(now, log, dims, i);
        CloseAllOnce(slots, Closed(log, slots[i].rf.value), dims, i + 1);
      } else {
        assert then' == now;
        CloseAllOnce(slots, log, dims, i + 1);
      }
    }
  }

  lemma ClosedCoherent(log: Log, dims: nat)
    requires forall h: nat :: h in log.files <==> h < log.next
    requires forall h :: h in log.files ==> log.closed[h] == 1
    requires forall h :: h in log.closed ==> h in log.files
    ensures Coherent([], log, dims)
  {
  }

  /** Over any run from an empty cache, however clocks, opens, closes and mallocs turn out: each handle
      ever opened is in one live slot, for the file it was opened for, or was closed exactly once; and
      once the cache is destroyed every one of them was closed exactly once. */
  lemma EveryHandleClosedOnce(qs: seq<Request>, dims: nat)
    requires Shaped(qs, dims)
    ensures var (slots, log) := Run([], Log(map[], multiset{}, 0), qs);
      && Coherent(slots, log, dims)
      && CloseAll(slots, log, 0).files == log.files
      && (forall h :: h in log.files ==> CloseAll(slots, log, 0).closed[h] == 1)
      && (forall h :: h in CloseAll(slots, log, 0).closed ==> h in log.files)
  {
    RunCoherent([], Log(map[], multiset{}, 0), qs, dims);
    var (slots, log) := Run([], Log(map[], multiset{}, 0), qs);
    assert Emptied(slots, 0) == slots;
    CloseAllOnce(slots, log, dims, 0);
  }
}
