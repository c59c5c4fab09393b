/** The simulator's two passes over a trace, and what they report. */
module Vmsim {
  import opened Belady
  import opened CacheSimulator
  import opened LruSpec
  import opened OptPaging
  import opened WriteBack

  lemma FramesSplit(trace: seq<Access>, i: nat)
    requires i < |trace|
    ensures trace[..i + 1] == trace[..i] + [trace[i]]
    ensures Frames(trace[..i + 1]) == Frames(trace[..i]) + [trace[i].frame]
    ensures trace[i..] == [trace[i]] + trace[i + 1..]
    ensures Frames(trace)[i..] == Frames(trace[i..])
    ensures Frames(trace[i..]) == [trace[i].frame] + Frames(trace[i + 1..])
  {
  }

  // ----- runs cut at the current position -----

  ghost function Last(s: set<Frame>, sched: seq<set<Frame>>): set<Frame> {
    if sched == [] then s else sched[|sched| - 1]
  }

  /** `sched` serves the first references of `refs` by the OPT rule. */
  ghost predicate IsOptPrefix(k: nat, s: set<Frame>, refs: seq<Frame>, sched: seq<set<Frame>>) {
    && |sched| <= |refs|
    && forall i :: 0 <= i < |sched| ==> OptServes(k, Last(s, sched[..i]), refs[i..], sched[i])
  }

  lemma OptPrefixGrows(k: nat, s: set<Frame>, refs: seq<Frame>, sched: seq<set<Frame>>, next: set<Frame>)
    requires IsOptPrefix(k, s, refs, sched) && |sched| < |refs|
    requires OptServes(k, Last(s, sched), refs[|sched|..], next)
    ensures IsOptPrefix(k, s, refs, sched + [next])
  {
    forall i | 0 <= i <= |sched|
      ensures OptServes(k, Last(s, (sched + [next])[..i]), refs[i..], (sched + [next])[i])
    {
      assert (sched + [next])[..i] == sched[..i];
      assert sched[..|sched|] == sched;
    }
  }

  lemma {:induction false} WholeOptPrefix(k: nat, s: set<Frame>, refs: seq<Frame>, sched: seq<set<Frame>>, i: nat)
    requires IsOptPrefix(k, s, refs, sched) && i <= |sched| == |refs|
    ensures IsOptSchedule(k, Last(s, sched[..i]), refs[i..], sched[i..])
    decreases |refs| - i
  {
    if i < |refs| {
      WholeOptPrefix(k, s, refs, sched, i + 1);
      assert refs[i..][1..] == refs[i + 1..] && sched[i..][1..] == sched[i + 1..];
      assert Last(s, sched[..i + 1]) == sched[i];
    }
  }

  lemma {:induction false} FaultsGrow(s: set<Frame>, refs: seq<Frame>, sched: seq<set<Frame>>, p: Frame, next: set<Frame>)
    requires |sched| == |refs|
    ensures Faults(s, refs + [p], sched + [next]) == Faults(s, refs, sched) + if p in Last(s, sched) then 0 else 1
    decreases |refs|
  {
    if refs == [] {
      assert (refs + [p])[1..] == [];
    } else {
      assert (refs + [p])[1..] == refs[1..] + [p] && (sched + [next])[1..] == sched[1..] + [next];
      FaultsGrow(sched[0], refs[1..], sched[1..], p, next);
    }
  }

  /** The dirty table after a whole run. */
  ghost function DirtyOver(dirty: map<Frame, bool>, trace: seq<Access>, sched: seq<set<Frame>>): map<Frame, bool>
    requires |sched| == |trace|
    decreases |trace|
  {
    if trace == [] then dirty
    else DirtyOver(DirtyAfter(dirty, sched[0], trace[0]), trace[1..], sched[1..])
  }

  lemma {:induction false} WritesGrow(dirty: map<Frame, bool>, done: seq<Access>, sched: seq<set<Frame>>,
                                      a: Access, next: set<Frame>)
    requires |sched| == |done|
    ensures var d := DirtyOver(dirty, done, sched);
            && DirtyOver(dirty, done + [a], sched + [next]) == DirtyAfter(d, next, a)
            && DiskWrites(dirty, done + [a], sched + [next]) == DiskWrites(dirty, done, sched) + |Flushed(d, next)|
    decreases |done|
  {
    if done == [] {
      assert (done + [a])[1..] == [];
    } else {
      assert (done + [a])[1..] == done[1..] + [a] && (sched + [next])[1..] == sched[1..] + [next];
      WritesGrow(DirtyAfter(dirty, sched[0], done[0]), done[1..], sched[1..], a, next);
    }
  }

  /** The statistics after `done`, over the schedule followed so far. */
  ghost predicate Reports(done: seq<Access>, sched: seq<set<Frame>>, faults: nat, writes: nat, dirty: map<Frame, bool>) {
    && |sched| == |done|
    && faults == Faults({}, Frames(done), sched)
    && writes == DiskWrites(map[], done, sched)
    && dirty == DirtyOver(map[], done, sched)
    && dirty.Keys == Last({}, sched)
  }

  lemma ReportGrows(done: seq<Access>, sched: seq<set<Frame>>, faults: nat, writes: nat, dirty: map<Frame, bool>,
                    a: Access, next: set<Frame>)
    requires Reports(done, sched, faults, writes, dirty)
    requires a.frame in next
    ensures Reports(done + [a], sched + [next], faults + if a.frame in dirty.Keys then 0 else 1,
                    writes + |Flushed(dirty, next)|, DirtyAfter(dirty, next, a))
  {
    assert Frames(done + [a]) == Frames(done) + [a.frame];
    FaultsGrow({}, Frames(done), sched, a.frame, next);
    WritesGrow(map[], done, sched, a, next);
  }

  // ----- the OPT simulation -----

  /** The first pass over the trace file records when each page is used. */
  method FillTable(cache: OptCache, trace: seq<Access>)
    requires cache.InSync([], []) && cache.cacheState == {}
    modifies cache
    ensures cache.InSync([], trace) && cache.cacheState == {}
  {
    var i := 0;
    while i < |trace|
      invariant 0 <= i <= |trace|
      invariant cache.InSync([], trace[..i]) && cache.cacheState == {}
    {
      InitKeepsSync(cache.accessTimes, cache.lastAccess, trace[..i], trace[i]);
      assert trace[..i] + [trace[i]] == trace[..i + 1];
      cache.InitTable(trace[i].time, trace[i].frame);
      i := i + 1;
    }
    assert trace[..i] == trace;
  }

  /** The second pass: the reported numbers are those of an OPT schedule of the trace. */
  method ReplayOpt(sim: OptSimulator, trace: seq<Access>) returns (ghost opt: seq<set<Frame>>)
    requires sim.Valid([], trace) && sim.optCache.cacheState == {}
    requires Reports([], [], sim.stats.pageFaults, sim.stats.diskWrites, sim.stats.dirty)
    modifies sim.optCache, sim.stats
    ensures IsOptSchedule(sim.numFrames, {}, Frames(trace), opt)
    ensures Reports(trace, opt, sim.stats.pageFaults, sim.stats.diskWrites, sim.stats.dirty)
  {
    hide Reports, OptCache.InSync, Clocked, DirtyAfter, Flushed, OptServes, TieBroken;
    opt := [];
    var i := 0;
    assert trace[..i] == [] && trace[i..] == trace;
    while i < |trace|
      invariant 0 <= i == |opt| <= |trace|
      invariant sim.Valid(trace[..i], trace[i..])
      invariant IsOptPrefix(sim.numFrames, {}, Frames(trace), opt)
      invariant Last({}, opt) == sim.optCache.cacheState
      invariant Reports(trace[..i], opt, sim.stats.pageFaults, sim.stats.diskWrites, sim.stats.dirty)
    {
      FramesSplit(trace, i);
      ghost var stats := (sim.stats.pageFaults, sim.stats.diskWrites, sim.stats.dirty);
      sim.OptAccess(trace[i], trace[..i], trace[i + 1..]);
      ghost var next := sim.optCache.cacheState;
      OptPrefixGrows(sim.numFrames, {}, Frames(trace), opt, next);
      ReportGrows(trace[..i], opt, stats.0, stats.1, stats.2, trace[i], next);
      opt := opt + [next];
      i := i + 1;
    }
    assert trace[..i] == trace;
    WholeOptPrefix(sim.numFrames, {}, Frames(trace), opt, 0);
    assert Frames(trace)[0..] == Frames(trace) && opt[0..] == opt;
  }

  /** Both passes of the OPT simulation for one process: the faults and disk writes reported are
      those of an OPT schedule, and no demand-paging schedule of the trace with as many frames has
      fewer faults. */
  method SimulateOpt(frames: nat, trace: seq<Access>) returns (faults: nat, writes: nat)
    requires 0 < frames && Clocked(trace)
    ensures exists opt :: IsOptSchedule(frames, {}, Frames(trace), opt)
              && faults == Faults({}, Frames(trace), opt) && writes == DiskWrites(map[], trace, opt)
    ensures forall sched :: IsSchedule(frames, {}, Frames(trace), sched) ==> faults <= Faults({}, Frames(trace), sched)
  {
    var sim := new OptSimulator(frames);
    FillTable(sim.optCache, trace);
    ghost var opt := ReplayOpt(sim, trace);
    faults, writes := sim.stats.pageFaults, sim.stats.diskWrites;
    forall sched | IsSchedule(frames, {}, Frames(trace), sched)
      ensures faults <= Faults({}, Frames(trace), sched)
    {
      OptIsOptimal(frames, {}, Frames(trace), opt, sched);
    }
  }

  // ----- the LRU simulation -----

  lemma {:induction false} LruGrows(k: nat, s: seq<Frame>, refs: seq<Frame>, p: Frame)
    ensures var end := LruContents(k, s, refs);
            && LruContents(k, s, refs + [p]) == Touch(k, end, p)
            && LruFaults(k, s, refs + [p]) == LruFaults(k, s, refs) + (if p in end then 0 else 1)
            && LruSchedule(k, s, refs + [p]) == LruSchedule(k, s, refs) + [Pages(Touch(k, end, p))]
    decreases |refs|
  {
    if refs == [] {
      assert (refs + [p])[1..] == [];
    } else {
      assert (refs + [p])[1..] == refs[1..] + [p];
      LruGrows(k, Touch(k, s, refs[0]), refs[1..], p);
    }
  }

  /** The pass over the trace: contents and statistics are those of the LRU policy. */
  method ReplayLru(sim: LruSimulator, trace: seq<Access>)
    requires sim.Valid() && sim.lruCache.recency == []
    requires Reports([], [], sim.stats.pageFaults, sim.stats.diskWrites, sim.stats.dirty)
    modifies sim.stats, sim.lruCache, sim.lruCache.Repr()
    ensures sim.Valid() && sim.lruCache.recency == LruContents(sim.numFrames, [], Frames(trace))
    ensures Reports(trace, LruSchedule(sim.numFrames, [], Frames(trace)),
                    sim.stats.pageFaults, sim.stats.diskWrites, sim.stats.dirty)
  {
    var i := 0;
    while i < |trace|
      invariant 0 <= i <= |trace|
      invariant sim.Valid() && fresh(sim.lruCache.Repr() - old(sim.lruCache.Repr()))
      invariant sim.lruCache.recency == LruContents(sim.numFrames, [], Frames(trace[..i]))
      invariant Reports(trace[..i], LruSchedule(sim.numFrames, [], Frames(trace[..i])),
                        sim.stats.pageFaults, sim.stats.diskWrites, sim.stats.dirty)
    {
      LruReportGrows(sim.numFrames, trace, i, sim.stats.pageFaults, sim.stats.diskWrites, sim.stats.dirty);
      sim.LruAccess(trace[i]);
      i := i + 1;
    }
    assert trace[..i] == trace;
  }

  lemma LruReportGrows(k: nat, trace: seq<Access>, i: nat, faults: nat, writes: nat, dirty: map<Frame, bool>)
    requires 0 < k && i < |trace|
    requires Reports(trace[..i], LruSchedule(k, [], Frames(trace[..i])), faults, writes, dirty)
    requires dirty.Keys == Pages(LruContents(k, [], Frames(trace[..i])))
    ensures var end, f := LruContents(k, [], Frames(trace[..i])), trace[i].frame;
            var next := Pages(Touch(k, end, f));
            && LruContents(k, [], Frames(trace[..i + 1])) == Touch(k, end, f)
            && Reports(trace[..i + 1], LruSchedule(k, [], Frames(trace[..i + 1])),
                       faults + (if f in end then 0 else 1), writes + |Flushed(dirty, next)|, DirtyAfter(dirty, next, trace[i]))
  {
    var end, f := LruContents(k, [], Frames(trace[..i])), trace[i].frame;
    FramesSplit(trace, i);
    LruGrows(k, [], Frames(trace[..i]), f);
    assert f in Touch(k, end, f);
    ReportGrows(trace[..i], LruSchedule(k, [], Frames(trace[..i])), faults, writes, dirty, trace[i], Pages(Touch(k, end, f)));
  }

  /** The LRU simulation for one process reports exactly the faults and disk writes of the LRU
      policy. */
  method SimulateLru(frames: nat, trace: seq<Access>) returns (faults: nat, writes: nat)
    requires 0 < frames
    ensures faults == LruFaults(frames, [], Frames(trace))
    ensures writes == DiskWrites(map[], trace, LruSchedule(frames, [], Frames(trace)))
  {
    var sim := new LruSimulator(frames);
    ReplayLru(sim, trace);
    LruIsSchedule(frames, [], Frames(trace));
    faults, writes := sim.stats.pageFaults, sim.stats.diskWrites;
  }

  /** OPT as the baseline: on every trace it reports at most as many faults as LRU does with the
      same number of frames, and LRU reports no more with more frames. */
  method CompareAlgorithms(frames: nat, more: nat, trace: seq<Access>) returns (opt: nat, lru: nat, lruMore: nat)
    requires 0 < frames <= more && Clocked(trace)
    ensures opt <= lru && lruMore <= lru
  {
    var w;
    opt, w := SimulateOpt(frames, trace);
    lru, w := SimulateLru(frames, trace);
    lruMore, w := SimulateLru(more, trace);
    LruIsSchedule(frames, [], Frames(trace));
    assert Pages([]) == {};
    MoreFramesFewerFaults(frames, more, [], Frames(trace));
  }
}
