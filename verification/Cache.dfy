/** The simulator's cache: statistics, the dirty table, and one access under either algorithm. */
module CacheSimulator {
  import opened Belady
  import opened LruPaging
  import opened LruSpec
  import opened OptPaging
  import opened Sequences
  import opened WriteBack

  /** The bookkeeping both algorithms share. */
  class Stats {
    var pageFaults: nat
    var diskWrites: nat
    var dirty: map<Frame, bool>

    constructor ()
      ensures pageFaults == 0 && diskWrites == 0 && dirty == map[]
    {
      pageFaults, diskWrites, dirty := 0, 0, map[];
    }

    /** A hit: a store makes the page dirty. */
    method Hit(a: Access)
      requires a.frame in dirty
      modifies this
      ensures pageFaults == old(pageFaults)
      ensures diskWrites == old(diskWrites) + |Flushed(old(dirty), dirty.Keys)|
      ensures dirty.Keys == old(dirty).Keys && dirty == DirtyAfter(old(dirty), dirty.Keys, a)
    {
      if a.store {
        dirty := dirty[a.frame := true];
      }
      assert Flushed(old(dirty), dirty.Keys) == {};
    }

    /** A fault in a cache that still has room. */
    method Load(a: Access)
      requires a.frame !in dirty
      modifies this
      ensures pageFaults == old(pageFaults) + 1
      ensures diskWrites == old(diskWrites) + |Flushed(old(dirty), dirty.Keys)|
      ensures dirty.Keys == old(dirty).Keys + {a.frame} && dirty == DirtyAfter(old(dirty), dirty.Keys, a)
    {
      dirty := dirty[a.frame := a.store];
      pageFaults := pageFaults + 1;
      assert Flushed(old(dirty), dirty.Keys) == {};
    }

    /** A fault that evicts `victim`: it is written to disk if it is dirty. */
    method Replace(victim: Frame, a: Access)
      requires victim in dirty && a.frame !in dirty
      modifies this
      ensures pageFaults == old(pageFaults) + 1
      ensures dirty.Keys == old(dirty).Keys - {victim} + {a.frame} && dirty == DirtyAfter(old(dirty), dirty.Keys, a)
      ensures diskWrites == old(diskWrites) + |Flushed(old(dirty), dirty.Keys)|
    {
      ghost var after := dirty.Keys - {victim} + {a.frame};
      assert Flushed(dirty, after) == if dirty[victim] then {victim} else {};
      if dirty[victim] {
        diskWrites := diskWrites + 1;
      }
      dirty := dirty - {victim};
      dirty := dirty[a.frame := a.store];
      assert dirty.Keys == after;
      pageFaults := pageFaults + 1;
    }
  }

  class LruSimulator {
    const numFrames: nat
    const stats: Stats
    const lruCache: LruCache

    ghost predicate Valid()
      reads this, stats, lruCache, lruCache.nodes
    {
      && 0 < numFrames
      && lruCache.Valid() && lruCache.length <= numFrames
      && stats.dirty.Keys == Pages(lruCache.recency)
    }

    constructor (frames: nat)
      requires 0 < frames
      ensures Valid() && fresh(stats) && fresh(lruCache) && fresh(lruCache.Repr())
      ensures numFrames == frames && lruCache.recency == []
      ensures stats.pageFaults == 0 && stats.diskWrites == 0 && stats.dirty == map[]
    {
      numFrames := frames;
      stats := new Stats();
      lruCache := new LruCache();
    }

    method LruAccess(a: Access)
      requires Valid()
      modifies stats, lruCache, lruCache.Repr()
      ensures Valid() && fresh(lruCache.Repr() - old(lruCache.Repr()))
      ensures lruCache.recency == Touch(numFrames, old(lruCache.recency), a.frame)
      ensures stats.pageFaults == old(stats.pageFaults) + if a.frame in old(lruCache.recency) then 0 else 1
      ensures stats.dirty == DirtyAfter(old(stats.dirty), stats.dirty.Keys, a)
      ensures stats.diskWrites == old(stats.diskWrites) + |Flushed(old(stats.dirty), stats.dirty.Keys)|
    {
      lruCache.TableAgrees();
      hide LruCache.Valid, Distinct, Flushed, DirtyAfter;
      TouchedPages(numFrames, lruCache.recency, a.frame);
      if lruCache.Contains(a.frame) {
        stats.Hit(a);
        lruCache.UpdatePos(a.frame);
        return;
      }
      if lruCache.length < numFrames {
        lruCache.Add(a.frame);
        stats.Load(a);
      } else {
        EvictOldest(a);
      }
    }

    /** A fault in a full cache. */
    method EvictOldest(a: Access)
      requires Valid() && lruCache.length == numFrames && a.frame !in lruCache.recency
      modifies stats, lruCache, lruCache.Repr()
      ensures Valid() && fresh(lruCache.Repr() - old(lruCache.Repr()))
      ensures lruCache.recency == Touch(numFrames, old(lruCache.recency), a.frame)
      ensures stats.pageFaults == old(stats.pageFaults) + 1
      ensures stats.dirty == DirtyAfter(old(stats.dirty), stats.dirty.Keys, a)
      ensures stats.diskWrites == old(stats.diskWrites) + |Flushed(old(stats.dirty), stats.dirty.Keys)|
    {
      lruCache.TableAgrees();
      hide LruCache.Valid, Distinct, Flushed, DirtyAfter, Touch, Pages;
      OldestGoes(numFrames, lruCache.recency, a.frame);
      var evicted := lruCache.Remove();
      lruCache.TableAgrees();
      lruCache.Add(a.frame);
      lruCache.TableAgrees();
      stats.Replace(evicted.value, a);
    }
  }

  class OptSimulator {
    const numFrames: nat
    const stats: Stats
    const optCache: OptCache

    ghost predicate Valid(past: seq<Access>, rest: seq<Access>)
      reads this, stats, optCache
    {
      && 0 < numFrames
      && optCache.InSync(past, rest)
      && |optCache.cacheState| <= numFrames
      && stats.dirty.Keys == optCache.cacheState
      && Clocked(rest)
    }

    constructor (frames: nat)
      requires 0 < frames
      ensures Valid([], []) && fresh(stats) && fresh(optCache)
      ensures numFrames == frames && optCache.cacheState == {}
      ensures stats.pageFaults == 0 && stats.diskWrites == 0 && stats.dirty == map[]
    {
      numFrames := frames;
      stats := new Stats();
      optCache := new OptCache();
    }

    /** One access; `rest` is the part of the recorded trace that follows it. */
    method OptAccess(a: Access, ghost past: seq<Access>, ghost rest: seq<Access>)
      requires Valid(past, [a] + rest)
      modifies stats, optCache
      ensures Valid(past + [a], rest)
      ensures OptServes(numFrames, old(optCache.cacheState), [a.frame] + Frames(rest), optCache.cacheState)
      ensures a.frame in optCache.cacheState
      ensures forall v :: v in old(optCache.cacheState) && v !in optCache.cacheState ==>
                TieBroken(v, old(optCache.cacheState), past, rest)
      ensures stats.pageFaults == old(stats.pageFaults) + if a.frame in old(optCache.cacheState) then 0 else 1
      ensures stats.dirty == DirtyAfter(old(stats.dirty), stats.dirty.Keys, a)
      ensures stats.diskWrites == old(stats.diskWrites) + |Flushed(old(stats.dirty), stats.dirty.Keys)|
    {
      hide Synced, Clocked, Flushed, DirtyAfter, TieBroken, Farthest, Frames, TimesOf;
      assert ([a] + rest)[1..] == rest && ([a.frame] + Frames(rest))[1..] == Frames(rest);
      ghost var before, times, last := optCache.cacheState, optCache.accessTimes, optCache.lastAccess;
      ClockedTail(a, rest);
      AccessKeepsSync(before, times, last, past, a, rest, if a.frame in before then before else before + {a.frame});
      if optCache.Contains(a.frame) {
        stats.Hit(a);
        optCache.Hit(a.frame);
        return;
      }
      if optCache.Size() < numFrames {
        optCache.Add(a.frame);
        stats.Load(a);
      } else {
        EvictFarthest(a, past, rest);
      }
    }

    /** A fault in a full cache. */
    method EvictFarthest(a: Access, ghost past: seq<Access>, ghost rest: seq<Access>)
      requires Valid(past, [a] + rest)
      requires a.frame !in optCache.cacheState && |optCache.cacheState| == numFrames
      modifies stats, optCache
      ensures Valid(past + [a], rest)
      ensures exists v :: Farthest(v, old(optCache.cacheState), Frames(rest)) && TieBroken(v, old(optCache.cacheState), past, rest)
                && optCache.cacheState == old(optCache.cacheState) - {v} + {a.frame}
      ensures stats.pageFaults == old(stats.pageFaults) + 1
      ensures stats.dirty == DirtyAfter(old(stats.dirty), stats.dirty.Keys, a)
      ensures stats.diskWrites == old(stats.diskWrites) + |Flushed(old(stats.dirty), stats.dirty.Keys)|
    {
      hide Synced, Clocked, Flushed, DirtyAfter, TieBroken, Farthest, Victim, TimesOf, Frames;
      ghost var before, times, last := optCache.cacheState, optCache.accessTimes, optCache.lastAccess;
      ClockedTail(a, rest);
      VictimIsFarthest(before, times, last, past, a, rest, -1);
      var evicted := optCache.Evict();
      VictimIsFarthest(before, times, last, past, a, rest, evicted);
      AccessKeepsSync(before, times, last, past, a, rest, before - {evicted} + {a.frame});
      optCache.Add(a.frame);
      stats.Replace(evicted, a);
    }
  }
}
