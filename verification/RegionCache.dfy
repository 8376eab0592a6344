/** `region_file_get` and `file_cache_destroy` (src/region/file_cache.c). */
module RegionCache {
  import opened Wrappers
  import opened FileCache

  class Region {
    const dims: nat
    var cacheLen: nat
    var cache: array<Slot>
    var log: Log

    ghost predicate Valid()
      reads this, cache
    {
      cache.Length == cacheLen && Coherent(cache[..], log, dims)
    }

    constructor (dims: nat)
      ensures Valid() && this.dims == dims && cache[..] == [] && log == Log(map[], multiset{}, 0)
      ensures fresh(cache)
    {
      this.dims := dims;
      cacheLen := 0;
      cache := new Slot[0];
      log := Log(map[], multiset{}, 0);
    }

    /** Answers the file at `q.pos`, from its slot or newly opened, and closes stale files it passes. */
    method Get(q: Request) returns (res: Result, rf: Option<nat>)
      requires Valid() && |q.pos| == dims
      modifies this`cacheLen, this`cache, this`log, cache
      ensures Valid() && (cache == old(cache) || fresh(cache))
      ensures Outcome(res, rf, cache[..], log) == After(old(cache[..]), old(log), q)
    {
      hide After;
      AfterCoherent(cache[..], log, q, dims);
      res, rf := Search(q);
    }

    method Search(q: Request) returns (res: Result, rf: Option<nat>)
      requires cache.Length == cacheLen
      modifies this`cacheLen, this`cache, this`log, cache
      ensures cache.Length == cacheLen && (cache == old(cache) || fresh(cache))
      ensures Outcome(res, rf, cache[..], log) == After(old(cache[..]), old(log), q)
    {
      hide Stop, SweptSlots, SweptLog, FirstFree;
      ghost var (before, start) := (cache[..], log);
      if q.clock.None? {
        return InvalidUsage, None;
      }
      SweepStart(before, q, start);
      var now := q.clock.value;
      var empty: Option<nat> := None;
      var i := 0;
      while i < cacheLen
        modifies this`log, cache
        invariant i <= cacheLen
        invariant Stop(before, q, 0) == Stop(before, q, i)
        invariant cache[..] == SweptSlots(before, q, i)
        invariant log == SweptLog(before, q, i, start)
        invariant empty.Some? ==> empty.value < |before|
        invariant FirstFree(before, 0) == if empty.Some? then empty.value else FirstFree(before, i)
      {
        SweepStep(before, q, i, start);
        if cache[i].rf.None? {
          if empty.None? { empty := Some(i); }
        } else if q.pos == cache[i].pos {
          cache[i] := cache[i].(lastAccess := now);
          return Ok, cache[i].rf;
        } else if q.stale(cache[i].lastAccess, now) {
          res := Close(i, q.closing);
          if res != Ok {
            return res, None;
          }
        }
        assert cache[..] == SweptSlots(before, q, i + 1);
        i := i + 1;
      }
      SweptLogOpens(before, q, i, start);
      res, rf := Fill(q, empty);
    }

    /** The file was in no slot: opens it, and puts it in the empty slot found or in one more. */
    method Fill(q: Request, found: Option<nat>) returns (res: Result, rf: Option<nat>)
      requires cache.Length == cacheLen && q.clock.Some?
      requires found.Some? ==> found.value < cacheLen
      modifies this`cacheLen, this`cache, this`log, cache
      ensures cache.Length == cacheLen && (cache == old(cache) || fresh(cache))
      ensures q.opening != Ok ==> res == q.opening && cache[..] == old(cache[..]) && log == old(log)
      ensures q.opening == Ok ==> res == if found.Some? || q.malloc then Ok else InvalidUsage
      ensures rf == if res == Ok then Some(old(log).next) else None
      ensures q.opening == Ok ==>
        log == if res == Ok then Opened(old(log), q.pos) else Closed(Opened(old(log), q.pos), old(log).next)
      ensures var s := Slot(rf, q.clock.value, q.pos);
        cache[..] == if res != Ok then old(cache[..])
          else if found.Some? then old(cache[..])[found.value := s] else old(cache[..]) + [s]
    {
      if q.opening != Ok {
        return q.opening, None;
      }
      var h := log.next;
      log := Opened(log, q.pos);
      var empty := found;
      if empty.None? {
        if !q.malloc {
          log := Closed(log, h);
          return InvalidUsage, None;
        }
        Grow(Slot(None, q.clock.value, q.pos));
        empty := Some(cacheLen - 1);
      }
      cache[empty.value] := Slot(Some(h), q.clock.value, q.pos);
      return Ok, Some(h);
    }

    /** region_file_close on a slot's file; the slot is empty afterwards, even if that failed. */
    method Close(i: nat, closing: nat -> Result) returns (res: Result)
      requires i < cache.Length && cache[i].rf.Some?
      modifies this`log, cache
      ensures res == closing(old(cache[i]).rf.value)
      ensures cache[..] == old(cache[..])[i := old(cache[i]).(rf := None)]
      ensures log == Closed(old(log), old(cache[i]).rf.value)
    {
      res := closing(cache[i].rf.value);
      log := Closed(log, cache[i].rf.value);
      cache[i] := cache[i].(rf := None);
    }

    /** One more slot, whose content (`blank`) is arbitrary. */
    method Grow(blank: Slot)
      requires cache.Length == cacheLen
      modifies this`cacheLen, this`cache
      ensures fresh(cache) && cacheLen == cache.Length == old(cacheLen) + 1
      ensures cache[..] == old(cache[..]) + [blank]
    {
      var larger := new Slot[cacheLen + 1](_ => blank);
      for i := 0 to cacheLen
        invariant cache == old(cache) && cache[..] == old(cache[..]) && cacheLen == old(cacheLen)
        invariant larger[..i] == cache[..i] && larger[cacheLen] == blank
      {
        larger[i] := cache[i];
      }
      cache, cacheLen := larger, cacheLen + 1;
    }

    /** Closes every open file and answers the first failure. */
    method Destroy(closing: nat -> Result) returns (res: Result)
      requires Valid()
      modifies this`cacheLen, this`cache, this`log
      ensures Valid() && cacheLen == 0 && cache[..] == [] && fresh(cache)
      ensures res == FirstFailure(old(cache[..]), closing, 0)
      ensures log == CloseAll(old(cache[..]), old(log), 0)
      ensures log.files == old(log.files) && forall h :: h in log.files ==> log.closed[h] == 1
    {
      assert Emptied(cache[..], 0) == cache[..];
      CloseAllOnce(cache[..], log, dims, 0);
      ClosedCoherent(CloseAll(cache[..], log, 0), dims);
      res := Release(closing);
    }

    method Release(closing: nat -> Result) returns (res: Result)
      requires cache.Length == cacheLen
      modifies this`cacheLen, this`cache, this`log
      ensures cache.Length == cacheLen == 0 && cache[..] == [] && fresh(cache)
      ensures res == FirstFailure(old(cache[..]), closing, 0)
      ensures log == CloseAll(old(cache[..]), old(log), 0)
    {
      res := Ok;
      for i := 0 to cacheLen
        invariant cache == old(cache) && cacheLen == cache.Length && cache[..] == old(cache[..])
        invariant CloseAll(cache[..], log, i) == CloseAll(cache[..], old(log), 0)
        invariant FirstFailure(cache[..], closing, 0) == if res.Ok? then FirstFailure(cache[..], closing, i) else res
      {
        if cache[i].rf.Some? {
          var closed := closing(cache[i].rf.value);
          log := Closed(log, cache[i].rf.value);
          if res == Ok { res := closed; }
        }
      }
      cache := new Slot[0];
      cacheLen := 0;
    }
  }
}
