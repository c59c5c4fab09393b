/** The write-back discipline shared by both replacement algorithms: which cached pages are dirty,
    when an eviction costs a disk write, and why no store is ever lost. */
module WriteBack {
  import opened Belady

  /** One memory access of a trace: its position in the trace file, its page, and whether it stores. */
  datatype Access = Access(time: int, frame: Frame, store: bool)

  function Frames(trace: seq<Access>): (refs: seq<Frame>)
    ensures |refs| == |trace|
    ensures forall i :: 0 <= i < |refs| ==> refs[i] == trace[i].frame
  {
    seq(|trace|, i requires 0 <= i < |trace| => trace[i].frame)
  }

  /** The dirty table after an access that turned the cache `before` into `after`. */
  ghost function DirtyAfter(dirty: map<Frame, bool>, after: set<Frame>, a: Access): map<Frame, bool> {
    map f | f in after :: if f == a.frame then a.store || (f in dirty && dirty[f]) else f in dirty && dirty[f]
  }

  /** The pages an access has to write to disk: the dirty ones that left the cache. */
  ghost function Flushed(dirty: map<Frame, bool>, after: set<Frame>): set<Frame> {
    set f | f in dirty && f !in after && dirty[f]
  }

  /** The number of disk writes over a whole run. */
  ghost function DiskWrites(dirty: map<Frame, bool>, trace: seq<Access>, sched: seq<set<Frame>>): nat
    requires |sched| == |trace|
    decreases |trace|
  {
    if trace == [] then 0
    else |Flushed(dirty, sched[0])| + DiskWrites(DirtyAfter(dirty, sched[0], trace[0]), trace[1..], sched[1..])
  }

  // ----- stores are never lost -----

  /** What the machine holds: the time of the newest store visible in each cached page and on disk. */
  datatype Contents = Contents(cached: map<Frame, int>, disk: imap<Frame, int>)

  /** An access with its data: pages in `Flushed` are copied to disk, other evicted pages are
      dropped, a page that comes in is read from disk, and a store makes its page newest. */
  ghost function Transfer(c: Contents, dirty: map<Frame, bool>, after: set<Frame>, a: Access): Contents
    requires forall f :: f in c.disk
    requires dirty.Keys == c.cached.Keys
  {
    var disk := imap f: Frame :: if f in Flushed(dirty, after) then c.cached[f] else c.disk[f];
    var held := map f | f in after ::
                  if a.store && f == a.frame then a.time else if f in c.cached then c.cached[f] else c.disk[f];
    Contents(held, disk)
  }

  /** The time of the newest store to `f` in `past`; what the disk held initially if there is none. */
  ghost function NewestStore(f: Frame, initial: int, past: seq<Access>): int {
    if past == [] then initial
    else
      var a := past[|past| - 1];
      if a.store && a.frame == f then a.time else NewestStore(f, initial, past[..|past| - 1])
  }

  /** Every cached page holds its newest store, and so does the disk for every page that is not
      cached dirty. */
  ghost predicate Coherent(c: Contents, dirty: map<Frame, bool>, initial: imap<Frame, int>, past: seq<Access>) {
    && (forall f :: f in c.disk && f in initial)
    && dirty.Keys == c.cached.Keys
    && (forall f :: f in c.cached ==> c.cached[f] == NewestStore(f, initial[f], past))
    && (forall f :: f !in c.cached || !dirty[f] ==> c.disk[f] == NewestStore(f, initial[f], past))
  }

  /** Coherence is kept by every access, whatever the policy evicts: the page just accessed then
      holds its newest store, so a load never reads a stale page from the disk. */
  lemma AccessKeepsCoherence(k: nat, c: Contents, dirty: map<Frame, bool>, initial: imap<Frame, int>,
                             past: seq<Access>, after: set<Frame>, a: Access)
    requires Coherent(c, dirty, initial, past)
    requires Serves(k, dirty.Keys, a.frame, after)
    ensures Coherent(Transfer(c, dirty, after, a), DirtyAfter(dirty, after, a), initial, past + [a])
  {
    var c' := Transfer(c, dirty, after, a);
    forall f: Frame
      ensures NewestStore(f, initial[f], past + [a]) ==
              if a.store && a.frame == f then a.time else NewestStore(f, initial[f], past)
    {
      assert (past + [a])[..|past|] == past;
    }
    assert c'.cached.Keys == after;
  }

  ghost function RunTransfer(c: Contents, dirty: map<Frame, bool>, trace: seq<Access>, sched: seq<set<Frame>>): (r: (Contents, map<Frame, bool>))
    requires |sched| == |trace|
    requires forall f :: f in c.disk
    requires dirty.Keys == c.cached.Keys
    decreases |trace|
  {
    if trace == [] then (c, dirty)
    else
      var c' := Transfer(c, dirty, sched[0], trace[0]);
      assert c'.cached.Keys == sched[0];
      RunTransfer(c', DirtyAfter(dirty, sched[0], trace[0]), trace[1..], sched[1..])
  }

  /** Over every run, from a coherent start: whatever page is looked at afterwards, its newest
      store is found in the cache if the page is cached and on disk otherwise. */
  lemma {:induction false} NoStoreIsLost(k: nat, c: Contents, dirty: map<Frame, bool>, initial: imap<Frame, int>,
                                         past: seq<Access>, trace: seq<Access>, sched: seq<set<Frame>>)
    requires Coherent(c, dirty, initial, past)
    requires IsSchedule(k, dirty.Keys, Frames(trace), sched)
    ensures var (end, stained) := RunTransfer(c, dirty, trace, sched);
            Coherent(end, stained, initial, past + trace)
    decreases |trace|
  {
    hide NewestStore, Transfer;
    if trace == [] {
      assert past + trace == past;
    } else {
      assert past + [trace[0]] + trace[1..] == past + trace;
      var c' := Transfer(c, dirty, sched[0], trace[0]);
      var dirty' := DirtyAfter(dirty, sched[0], trace[0]);
      AccessKeepsCoherence(k, c, dirty, initial, past, sched[0], trace[0]);
      assert dirty'.Keys == sched[0];
      assert Frames(trace)[1..] == Frames(trace[1..]);
      NoStoreIsLost(k, c', dirty', initial, past + [trace[0]], trace[1..], sched[1..]);
    }
  }

  /** Disk writes are bounded by stores: a page becomes dirty only through a store. */
  lemma {:induction false} WritesBoundedByStores(dirty: map<Frame, bool>, trace: seq<Access>, sched: seq<set<Frame>>)
    requires |sched| == |trace|
    ensures DiskWrites(dirty, trace, sched) <= |set f | f in dirty && dirty[f]| + Stores(trace)
    decreases |trace|
  {
    var was := set f | f in dirty && dirty[f];
    if trace == [] {
    } else {
      var dirty' := DirtyAfter(dirty, sched[0], trace[0]);
      var now := set f | f in dirty' && dirty'[f];
      var out := Flushed(dirty, sched[0]);
      WritesBoundedByStores(dirty', trace[1..], sched[1..]);
      if trace[0].store {
        assert now + out <= was + {trace[0].frame};
        SubsetCard(now + out, was + {trace[0].frame});
      } else {
        assert now + out <= was;
        SubsetCard(now + out, was);
      }
      assert |now + out| == |now| + |out|;
    }
  }

  ghost function Stores(trace: seq<Access>): nat {
    if trace == [] then 0 else (if trace[0].store then 1 else 0) + Stores(trace[1..])
  }
}
