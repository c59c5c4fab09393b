/** Demand paging in the abstract: schedules, fault counts, and Belady's theorem.

    A schedule lists the cache contents after every reference.  The only thing demanded of it is
    that a page is brought in by the reference to it and that the capacity is respected, so the
    schedules include every policy that loads pages on demand, whenever and whatever it evicts. */
module Belady {

  type Frame = int

  /** `after` is a possible cache after the reference `p` met the cache `before`. */
  ghost predicate Serves(k: nat, before: set<Frame>, p: Frame, after: set<Frame>) {
    p in after && after <= before + {p} && |after| <= k
  }

  ghost predicate IsSchedule(k: nat, s: set<Frame>, refs: seq<Frame>, sched: seq<set<Frame>>)
    decreases |refs|
  {
    && |sched| == |refs|
    && (refs != [] ==> Serves(k, s, refs[0], sched[0]) && IsSchedule(k, sched[0], refs[1..], sched[1..]))
  }

  ghost function Faults(s: set<Frame>, refs: seq<Frame>, sched: seq<set<Frame>>): nat
    requires |sched| == |refs|
    decreases |refs|
  {
    if refs == [] then 0
    else (if refs[0] in s then 0 else 1) + Faults(sched[0], refs[1..], sched[1..])
  }

  /** The position of the next reference to `f`; the length of `refs` when there is none. */
  function NextUse(f: Frame, refs: seq<Frame>): (n: nat)
    ensures n <= |refs|
    ensures n < |refs| ==> refs[n] == f
    ensures forall i :: 0 <= i < n ==> refs[i] != f
  {
    if refs == [] || refs[0] == f then 0 else 1 + NextUse(f, refs[1..])
  }

  /** No cached page is used later than `v`. */
  ghost predicate Farthest(v: Frame, s: set<Frame>, refs: seq<Frame>) {
    v in s && forall f :: f in s ==> NextUse(f, refs) <= NextUse(v, refs)
  }

  /** One reference under the OPT rule: evict only on a fault in a full cache, and then a page
      whose next use lies farthest ahead. */
  ghost predicate OptServes(k: nat, before: set<Frame>, refs: seq<Frame>, after: set<Frame>)
    requires refs != []
  {
    var p := refs[0];
    if p in before then after == before
    else if |before| < k then after == before + {p}
    else exists v :: Farthest(v, before, refs[1..]) && after == before - {v} + {p}
  }

  ghost predicate IsOptSchedule(k: nat, s: set<Frame>, refs: seq<Frame>, sched: seq<set<Frame>>)
    decreases |refs|
  {
    && |sched| == |refs|
    && (refs != [] ==> OptServes(k, s, refs, sched[0]) && IsOptSchedule(k, sched[0], refs[1..], sched[1..]))
  }

  // ----- the exchange argument -----

  lemma Pick<T>(s: set<T>) returns (x: T)
    requires s != {}
    ensures x in s
  {
    x :| x in s;
  }

  /** A set with more room than another one has an element outside it. */
  lemma Outsider(s: set<Frame>, t: set<Frame>, p: Frame) returns (v: Frame)
    requires |t| <= |s| && p in t && p !in s
    ensures v in s && v !in t
  {
    var outside := s - t;
    if outside == {} {
      SubsetCard(s + {p}, t);
      assert false;
    }
    v := Pick(outside);
  }

  lemma SubsetCard(a: set<Frame>, b: set<Frame>)
    requires a <= b
    ensures |a| <= |b|
    ensures |a| == |b| ==> a == b
  {
    assert b == a + (b - a);
    assert |b| == |a| + |b - a|;
    if |a| == |b| {
      assert b - a == {};
    }
  }

  /** The next cache of a follower `s` that imitates a leader whose next cache is `t'`. */
  lemma Follow(k: nat, s: set<Frame>, p: Frame, t': set<Frame>) returns (s': set<Frame>)
    requires 0 < k && |s| <= k && |t'| <= k && p in t'
    ensures Serves(k, s, p, s')
    ensures p in s ==> s' == s
    ensures t' * s <= s'
  {
    if p in s {
      s' := s;
      assert s' <= s + {p};
    } else if |s| < k {
      s' := s + {p};
    } else {
      var v := Outsider(s, t', p);
      s' := s - {v} + {p};
      assert |s - {v}| == |s| - 1;
    }
  }

  /** Starting with other pages costs at most one extra fault per page the other cache has. */
  lemma {:induction false} LagCost(k: nat, s: set<Frame>, t: set<Frame>, refs: seq<Frame>, tsched: seq<set<Frame>>)
    returns (ssched: seq<set<Frame>>)
    requires 0 < k && |s| <= k
    requires IsSchedule(k, t, refs, tsched)
    ensures IsSchedule(k, s, refs, ssched)
    ensures Faults(s, refs, ssched) <= Faults(t, refs, tsched) + |t - s|
    decreases |refs|
  {
    if refs == [] {
      ssched := [];
    } else {
      var p, t' := refs[0], tsched[0];
      var s' := Follow(k, s, p, t');
      var rest := LagCost(k, s', t', refs[1..], tsched[1..]);
      ssched := [s'] + rest;
      assert ssched[1..] == rest;
      if p in t && p !in s {
        assert t' - s' <= t - s - {p};
        SubsetCard(t' - s', t - s - {p});
      } else {
        assert t' - s' <= t - s;
        SubsetCard(t' - s', t - s);
      }
    }
  }

  /** If the only page the other cache has in addition is `b`, and it lacks a page `a` that is
      needed no later than `b`, then nothing is lost by starting with `a` instead of `b`. */
  lemma {:induction false} ExchangeCost(k: nat, s: set<Frame>, t: set<Frame>, a: Frame, b: Frame,
                                        refs: seq<Frame>, tsched: seq<set<Frame>>)
    returns (ssched: seq<set<Frame>>)
    requires 0 < k && |s| <= k && |t| <= k
    requires IsSchedule(k, t, refs, tsched)
    requires t - s <= {b} && b !in s && a in s && a !in t
    requires NextUse(a, refs) <= NextUse(b, refs)
    ensures IsSchedule(k, s, refs, ssched)
    ensures Faults(s, refs, ssched) <= Faults(t, refs, tsched)
    decreases |refs|
  {
    if refs == [] {
      return [];
    }
    var p, t' := refs[0], tsched[0];
    var rest;
    if p == a {
      // the other cache faults here, which pays for the one page it is ahead
      rest := LagCost(k, s, t', refs[1..], tsched[1..]);
      SubsetCard(t' - s, {b});
      ssched := [s] + rest;
    } else if p in s {
      rest := ExchangeCost(k, s, t', a, b, refs[1..], tsched[1..]);
      ssched := [s] + rest;
    } else {
      assert p != b;
      assert p in t ==> p in t - s;
      var s' := FollowKeeping(k, s, p, t', a);
      if a in s' {
        rest := ExchangeCost(k, s', t', a, b, refs[1..], tsched[1..]);
      } else {
        // both caches evicted the page that told them apart
        assert s - {a} + {p} <= t';
        assert |s - {a} + {p}| == |s| == k;
        SubsetCard(s - {a} + {p}, t');
        assert t' - s' == {};
        rest := LagCost(k, s', t', refs[1..], tsched[1..]);
      }
      ssched := [s'] + rest;
    }
  }

  /** A fault served so that `a` stays unless every other page is also in `t'`. */
  lemma FollowKeeping(k: nat, s: set<Frame>, p: Frame, t': set<Frame>, a: Frame) returns (s': set<Frame>)
    requires 0 < k && |s| <= k && |t'| <= k && p in t' && p !in s && a in s && a !in t'
    ensures Serves(k, s, p, s')
    ensures t' * s <= s'
    ensures a !in s' ==> |s| == k && s - {a} <= t' && s' == s - {a} + {p}
  {
    if |s| < k {
      s' := s + {p};
    } else {
      var v := a;
      var spare := s - {a} - t';
      if spare != {} {
        v := Pick(spare);
      }
      s' := s - {v} + {p};
      assert |s - {v}| == |s| - 1;
    }
  }

  /** One OPT step is at least as good as the first step of any schedule: the rest of that
      schedule can be followed from the OPT cache without further faults. */
  lemma OptStep(k: nat, s: set<Frame>, s': set<Frame>, refs: seq<Frame>, sched: seq<set<Frame>>)
    returns (rest: seq<set<Frame>>)
    requires 0 < k && |s| <= k && refs != []
    requires OptServes(k, s, refs, s')
    requires IsSchedule(k, s, refs, sched)
    ensures |s'| <= k && IsSchedule(k, s', refs[1..], rest)
    ensures Faults(s', refs[1..], rest) <= Faults(sched[0], refs[1..], sched[1..])
  {
    var p, t' := refs[0], sched[0];
    if p in s || |s| < k {
      assert t' - s' == {};
      rest := LagCost(k, s', t', refs[1..], sched[1..]);
    } else {
      var v :| Farthest(v, s, refs[1..]) && s' == s - {v} + {p};
      assert |s - {v}| == |s| - 1;
      if v in t' {
        var a := Outsider(s, t', p);
        assert t' - s' <= {v};
        rest := ExchangeCost(k, s', t', a, v, refs[1..], sched[1..]);
      } else {
        assert t' - s' == {};
        rest := LagCost(k, s', t', refs[1..], sched[1..]);
      }
    }
  }

  /** Belady's theorem: an OPT schedule has no more faults than any schedule of the same
      reference string with the same number of frames. */
  lemma {:induction false} OptIsOptimal(k: nat, s: set<Frame>, refs: seq<Frame>,
                                        opt: seq<set<Frame>>, sched: seq<set<Frame>>)
    requires 0 < k && |s| <= k
    requires IsOptSchedule(k, s, refs, opt)
    requires IsSchedule(k, s, refs, sched)
    ensures Faults(s, refs, opt) <= Faults(s, refs, sched)
    decreases |refs|
  {
    if refs != [] {
      var rest := OptStep(k, s, opt[0], refs, sched);
      OptIsOptimal(k, opt[0], refs[1..], opt[1..], rest);
    }
  }

  /** An OPT schedule is itself a schedule, so the bound of `OptIsOptimal` is attained. */
  lemma {:induction false} OptIsSchedule(k: nat, s: set<Frame>, refs: seq<Frame>, opt: seq<set<Frame>>)
    requires 0 < k && |s| <= k
    requires IsOptSchedule(k, s, refs, opt)
    ensures IsSchedule(k, s, refs, opt)
    decreases |refs|
  {
    if refs != [] {
      if refs[0] !in s && |s| >= k {
        var v :| Farthest(v, s, refs[1..]) && opt[0] == s - {v} + {refs[0]};
        assert |s - {v}| == |s| - 1;
      }
      OptIsSchedule(k, opt[0], refs[1..], opt[1..]);
    }
  }
}
