/** The OPT replacement algorithm: per-page queues of access times filled from the trace in a first
    pass and consumed in a second one. */
module OptPaging {
  import opened Belady
  import opened WriteBack

  /** Long.MAX_VALUE, which the program uses for "never used again". */
  const NEVER := 0x7fff_ffff_ffff_ffff

  /** The times at which `trace` accesses page `f`, in order. */
  ghost function TimesOf(f: Frame, trace: seq<Access>): seq<int> {
    if trace == [] then []
    else (if trace[0].frame == f then [trace[0].time] else []) + TimesOf(f, trace[1..])
  }

  lemma {:induction false} TimesOfAppend(f: Frame, trace: seq<Access>, a: Access)
    ensures TimesOf(f, trace + [a]) == TimesOf(f, trace) + if a.frame == f then [a.time] else []
  {
    if trace == [] {
      assert (trace + [a])[1..] == [];
    } else {
      assert (trace + [a])[1..] == trace[1..] + [a];
      TimesOfAppend(f, trace[1..], a);
      var first, last := if trace[0].frame == f then [trace[0].time] else [], if a.frame == f then [a.time] else [];
      assert first + (TimesOf(f, trace[1..]) + last) == (first + TimesOf(f, trace[1..])) + last;
    }
  }

  /** Access times are the line numbers of the trace file that belong to one process. */
  ghost predicate Clocked(trace: seq<Access>) {
    && (forall i :: 0 <= i < |trace| ==> 0 <= trace[i].time < NEVER)
    && (forall i, j :: 0 <= i < j < |trace| ==> trace[i].time < trace[j].time)
  }

  lemma ClockedTail(a: Access, rest: seq<Access>)
    requires Clocked([a] + rest)
    ensures Clocked(rest)
  {
    assert forall i :: 0 <= i < |rest| ==> rest[i] == ([a] + rest)[i + 1];
  }

  /** The head of a page's queue is the time of its true next use. */
  lemma {:induction false} QueueHeadIsNextUse(f: Frame, trace: seq<Access>)
    ensures var n := NextUse(f, Frames(trace));
            if n == |trace| then TimesOf(f, trace) == []
            else TimesOf(f, trace) != [] && TimesOf(f, trace)[0] == trace[n].time
    decreases |trace|
  {
    if trace != [] {
      assert Frames(trace)[1..] == Frames(trace[1..]);
      QueueHeadIsNextUse(f, trace[1..]);
    }
  }

  /** The time at which the queues say `f` is used next. */
  function NextTime(times: map<Frame, seq<int>>, f: Frame): int {
    if f !in times || times[f] == [] then NEVER else times[f][0]
  }

  /** Whether `v` is to be evicted rather than `f`: used later, or equally late and not used
      more recently. */
  ghost predicate EvictsBefore(times: map<Frame, seq<int>>, last: map<Frame, int>, v: Frame, f: Frame)
    requires {v, f} <= last.Keys
  {
    || NextTime(times, f) < NextTime(times, v)
    || (NextTime(times, f) == NextTime(times, v) && last[v] <= last[f])
  }

  /** `v` is the page to evict among `s`. */
  ghost predicate Victim(times: map<Frame, seq<int>>, last: map<Frame, int>, v: Frame, s: set<Frame>)
    requires s <= last.Keys
  {
    v in s && forall f :: f in s ==> EvictsBefore(times, last, v, f)
  }

  lemma VictimOfMore(times: map<Frame, seq<int>>, last: map<Frame, int>, v: Frame, f: Frame, s: set<Frame>)
    requires s + {f} <= last.Keys && (s != {} ==> Victim(times, last, v, s))
    ensures s != {} && EvictsBefore(times, last, v, f) ==> Victim(times, last, v, s + {f})
    ensures s == {} || EvictsBefore(times, last, f, v) ==> Victim(times, last, f, s + {f})
  {
  }

  /** The queues hold exactly the accesses still to come, and `last` remembers for every cached
      page when it was last used. */
  ghost predicate Synced(cached: set<Frame>, times: map<Frame, seq<int>>, last: map<Frame, int>,
                         past: seq<Access>, rest: seq<Access>)
  {
    && last.Keys == times.Keys
    && cached <= times.Keys
    && (forall f :: f in times ==> times[f] == TimesOf(f, rest))
    && (forall i :: 0 <= i < |rest| ==> rest[i].frame in times)
    && (forall f :: f in cached ==> TimesOf(f, past) != [] && last[f] == LastUse(f, past))
  }

  /** Recording one more access in the first pass keeps the queues in step with the trace. */
  lemma InitKeepsSync(times: map<Frame, seq<int>>, last: map<Frame, int>, read: seq<Access>, a: Access)
    requires Synced({}, times, last, [], read)
    ensures Synced({}, times[a.frame := (if a.frame in times then times[a.frame] else []) + [a.time]],
                   if a.frame in times then last else last[a.frame := NEVER - 1], [], read + [a])
  {
    forall f
      ensures TimesOf(f, read + [a]) == TimesOf(f, read) + if a.frame == f then [a.time] else []
      ensures f !in times ==> TimesOf(f, read) == []
    {
      TimesOfAppend(f, read, a);
      if f !in times {
        AbsentPage(f, read);
      }
    }
  }

  /** Serving the next access consumes exactly its entry, whatever else is evicted. */
  lemma AccessKeepsSync(cached: set<Frame>, times: map<Frame, seq<int>>, last: map<Frame, int>,
                        past: seq<Access>, a: Access, rest: seq<Access>, cached': set<Frame>)
    requires Synced(cached, times, last, past, [a] + rest)
    requires cached' <= cached + {a.frame}
    ensures a.frame in times && times[a.frame] == [a.time] + TimesOf(a.frame, rest)
    ensures Synced(cached', times[a.frame := times[a.frame][1..]], last[a.frame := a.time], past + [a], rest)
  {
    assert ([a] + rest)[0] == a && ([a] + rest)[1..] == rest;
    assert forall i :: 0 <= i < |rest| ==> rest[i] == ([a] + rest)[i + 1];
    forall f
      ensures TimesOf(f, past + [a]) == TimesOf(f, past) + if a.frame == f then [a.time] else []
    {
      TimesOfAppend(f, past, a);
    }
  }

  /** The page the tables single out is the one used farthest ahead, and the least recently used
      of those that are used equally late. */
  lemma VictimIsFarthest(cached: set<Frame>, times: map<Frame, seq<int>>, last: map<Frame, int>,
                         past: seq<Access>, a: Access, rest: seq<Access>, v: Frame)
    requires Synced(cached, times, last, past, [a] + rest)
    requires Clocked([a] + rest) && a.frame !in cached
    ensures cached <= times.Keys == last.Keys && forall f :: f in cached ==> 0 <= NextTime(times, f)
    ensures Victim(times, last, v, cached) ==> Farthest(v, cached, Frames(rest)) && TieBroken(v, cached, past, rest)
  {
    hide TimesOf, LastUse, NextTime, NextUse, Frames;
    ClockedTail(a, rest);
    TimesAhead(cached, times, last, past, a, rest);
    forall f | f in cached
      ensures 0 <= NextTime(times, f)
      ensures v in cached ==> (NextTime(times, f) <= NextTime(times, v) <==> NextUse(f, Frames(rest)) <= NextUse(v, Frames(rest)))
      ensures v in cached ==> (NextTime(times, v) <= NextTime(times, f) <==> NextUse(v, Frames(rest)) <= NextUse(f, Frames(rest)))
    {
      TimeOrder(times, f, f, rest);
      if v in cached {
        TimeOrder(times, f, v, rest);
      }
    }
    if Victim(times, last, v, cached) {
      forall f | f in cached
        ensures NextUse(f, Frames(rest)) <= NextUse(v, Frames(rest))
      {
        assert EvictsBefore(times, last, v, f);
      }
    }
  }

  /** The queues of the cached pages hold their accesses behind the current one, which is to another page. */
  lemma TimesAhead(cached: set<Frame>, times: map<Frame, seq<int>>, last: map<Frame, int>,
                   past: seq<Access>, a: Access, rest: seq<Access>)
    requires Synced(cached, times, last, past, [a] + rest) && a.frame !in cached
    ensures forall f :: f in cached ==> f in times && times[f] == TimesOf(f, rest)
  {
    assert ([a] + rest)[0] == a && ([a] + rest)[1..] == rest;
  }

  /** By the heads of their queues pages compare as by their next uses. */
  lemma TimeOrder(times: map<Frame, seq<int>>, f: Frame, v: Frame, rest: seq<Access>)
    requires Clocked(rest) && f in times && v in times && times[f] == TimesOf(f, rest) && times[v] == TimesOf(v, rest)
    ensures 0 <= NextTime(times, f)
    ensures NextTime(times, f) <= NextTime(times, v) <==> NextUse(f, Frames(rest)) <= NextUse(v, Frames(rest))
    ensures NextTime(times, v) <= NextTime(times, f) <==> NextUse(v, Frames(rest)) <= NextUse(f, Frames(rest))
  {
    QueueHeadIsNextUse(f, rest);
    QueueHeadIsNextUse(v, rest);
  }

  /** Ties between equally late pages are broken by least recent use. */
  ghost predicate TieBroken(v: Frame, cached: set<Frame>, past: seq<Access>, rest: seq<Access>) {
    TimesOf(v, past) != [] && forall f :: f in cached && NextUse(f, Frames(rest)) == NextUse(v, Frames(rest)) ==>
      TimesOf(f, past) != [] && LastUse(v, past) <= LastUse(f, past)
  }

  class OptCache {
    var cacheState: set<Frame>
    var accessTimes: map<Frame, seq<int>>
    var lastAccess: map<Frame, int>

    constructor ()
      ensures cacheState == {} && accessTimes == map[] && lastAccess == map[]
      ensures InSync([], [])
    {
      cacheState, accessTimes, lastAccess := {}, map[], map[];
    }

    ghost predicate InSync(past: seq<Access>, rest: seq<Access>)
      reads this
    {
      Synced(cacheState, accessTimes, lastAccess, past, rest)
    }

    function Size(): nat
      reads this
    {
      |cacheState|
    }

    predicate Contains(frame: Frame)
      reads this
    {
      frame in cacheState
    }

    /** Appends one access to the queue of its page during the first pass. */
    method InitTable(time: int, frame: Frame)
      modifies this
      ensures cacheState == old(cacheState)
      ensures accessTimes == old(accessTimes)[frame := (if frame in old(accessTimes) then old(accessTimes)[frame] else []) + [time]]
      ensures lastAccess == if frame in old(accessTimes) then old(lastAccess) else old(lastAccess)[frame := NEVER - 1]
    {
      if frame !in accessTimes {
        accessTimes := accessTimes[frame := [] + [time]];
        lastAccess := lastAccess[frame := NEVER - 1];
      } else {
        var times := accessTimes[frame];
        accessTimes := accessTimes[frame := times + [time]];
      }
    }

    /** Registers a hit: the access leaves the queue.  A page without recorded accesses stays as it is. */
    method Hit(frame: Frame)
      requires frame in accessTimes
      modifies this
      ensures cacheState == old(cacheState)
      ensures if old(accessTimes[frame]) == [] then accessTimes == old(accessTimes) && lastAccess == old(lastAccess)
              else && accessTimes == old(accessTimes)[frame := old(accessTimes[frame])[1..]]
                   && lastAccess == old(lastAccess)[frame := old(accessTimes[frame])[0]]
    {
      var times := accessTimes[frame];
      if |times| <= 0 {
        return;
      }
      var currTime := times[0];
      accessTimes := accessTimes[frame := times[1..]];
      lastAccess := lastAccess[frame := currTime];
    }

    /** Brings a page in.  A page without recorded accesses is not cached at all. */
    method Add(frame: Frame)
      requires frame in accessTimes
      modifies this
      ensures if old(accessTimes[frame]) == []
              then accessTimes == old(accessTimes) && lastAccess == old(lastAccess) && cacheState == old(cacheState)
              else && accessTimes == old(accessTimes)[frame := old(accessTimes[frame])[1..]]
                   && lastAccess == old(lastAccess)[frame := old(accessTimes[frame])[0]]
                   && cacheState == old(cacheState) + {frame}
    {
      var times := accessTimes[frame];
      if |times| <= 0 {
        return;
      }
      var currTime := times[0];
      accessTimes := accessTimes[frame := times[1..]];
      lastAccess := lastAccess[frame := currTime];
      cacheState := cacheState + {frame};
    }

    /** Removes the page whose next use lies farthest ahead, the least recently used one of
        several; -1 when the cache is empty.  The hash set is searched in an arbitrary order. */
    method Evict() returns (toEvict: Frame)
      requires cacheState <= accessTimes.Keys && cacheState <= lastAccess.Keys
      requires forall f :: f in cacheState ==> 0 <= NextTime(accessTimes, f)
      modifies this
      ensures accessTimes == old(accessTimes) && lastAccess == old(lastAccess)
      ensures cacheState == old(cacheState) - {toEvict}
      ensures old(cacheState) == {} ==> toEvict == -1
      ensures old(cacheState) != {} ==> Victim(accessTimes, lastAccess, toEvict, old(cacheState))
    {
      toEvict := -1;
      var highestNextUse, lowestLruTime := -1, NEVER;
      var frames, queues, last := cacheState, accessTimes, lastAccess;
      var todo := frames;
      ghost var seen: set<Frame> := {};
      while todo != {}
        invariant cacheState == frames && accessTimes == queues && lastAccess == last
        invariant seen + todo == frames
        invariant seen == {} ==> toEvict == -1 && highestNextUse == -1
        invariant seen != {} ==> Victim(queues, last, toEvict, seen)
        invariant seen != {} ==> highestNextUse == NextTime(queues, toEvict) && lowestLruTime == last[toEvict]
        decreases todo
      {
        ghost var some := Pick(todo);
        var currFrame :| currFrame in todo;
        var times := queues[currFrame];
        var nextUse := if |times| <= 0 then NEVER else times[0];
        assert nextUse == NextTime(queues, currFrame);
        VictimOfMore(queues, last, toEvict, currFrame, seen);
        if nextUse > highestNextUse {
          toEvict := currFrame;
          highestNextUse := nextUse;
          lowestLruTime := last[currFrame];
        } else if nextUse == highestNextUse {
          var lruTime := last[currFrame];
          if lruTime < lowestLruTime {
            toEvict := currFrame;
            highestNextUse := nextUse;
            lowestLruTime := lruTime;
          }
        }
        todo, seen := todo - {currFrame}, seen + {currFrame};
      }
      cacheState := cacheState - {toEvict};
    }
  }

  ghost function LastUse(f: Frame, past: seq<Access>): int
    requires TimesOf(f, past) != []
  {
    TimesOf(f, past)[|TimesOf(f, past)| - 1]
  }

  lemma {:induction false} AbsentPage(f: Frame, trace: seq<Access>)
    requires forall i :: 0 <= i < |trace| ==> trace[i].frame != f
    ensures TimesOf(f, trace) == []
  {
    if trace != [] {
      AbsentPage(f, trace[1..]);
    }
  }
}
