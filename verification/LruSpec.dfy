/** The LRU recency order as a value, and the stack property. */
module LruSpec {
  import opened Belady
  import opened LruPaging
  import opened Sequences

  /** The recency order of a cache with `k` frames after the reference `f`. */
  ghost function Touch(k: nat, s: seq<Frame>, f: Frame): seq<Frame> {
    if f in s then [f] + Without(s, f)
    else if |s| < k || s == [] then [f] + s
    else [f] + s[..|s| - 1]
  }

  ghost function LruFaults(k: nat, s: seq<Frame>, refs: seq<Frame>): nat
    decreases |refs|
  {
    if refs == [] then 0
    else (if refs[0] in s then 0 else 1) + LruFaults(k, Touch(k, s, refs[0]), refs[1..])
  }

  ghost function LruContents(k: nat, s: seq<Frame>, refs: seq<Frame>): seq<Frame>
    decreases |refs|
  {
    if refs == [] then s else LruContents(k, Touch(k, s, refs[0]), refs[1..])
  }

  /** The sets of cached pages over a run. */
  ghost function LruSchedule(k: nat, s: seq<Frame>, refs: seq<Frame>): (sched: seq<set<Frame>>)
    ensures |sched| == |refs|
    decreases |refs|
  {
    if refs == [] then []
    else [Pages(Touch(k, s, refs[0]))] + LruSchedule(k, Touch(k, s, refs[0]), refs[1..])
  }

  ghost function Pages(s: seq<Frame>): set<Frame> {
    set f | f in s
  }

  ghost function Take(s: seq<Frame>, k: nat): seq<Frame> {
    if |s| <= k then s else s[..k]
  }

  lemma {:induction false} WithoutKeeps(s: seq<Frame>, f: Frame)
    requires Distinct(s)
    ensures Distinct(Without(s, f)) && (forall g :: g in Without(s, f) <==> g in s && g != f)
    ensures |Without(s, f)| == if f in s then |s| - 1 else |s|
  {
    if s != [] {
      WithoutKeeps(s[1..], f);
      assert s[0] !in Without(s[1..], f);
    }
  }

  lemma TouchKeeps(k: nat, s: seq<Frame>, f: Frame)
    requires 0 < k && Distinct(s) && |s| <= k
    ensures Distinct(Touch(k, s, f)) && |Touch(k, s, f)| <= k
    ensures Serves(k, Pages(s), f, Pages(Touch(k, s, f)))
  {
    WithoutKeeps(s, f);
    DistinctCard(Touch(k, s, f));
    assert forall g :: g in Touch(k, s, f) ==> g in s || g == f;
  }

  /** A fault in a full cache. */
  lemma OldestGoes(k: nat, s: seq<Frame>, f: Frame)
    requires 0 < k == |s| && Distinct(s) && f !in s
    ensures s[k - 1] in Pages(s) && f !in Pages(s) && f !in s[..k - 1]
    ensures Touch(k, s, f) == [f] + s[..k - 1] && Pages(Touch(k, s, f)) == Pages(s) - {s[k - 1]} + {f}
  {
    TouchedPages(k, s, f);
  }

  /** How the set of cached pages changes: not at all on a hit, by one page on a fault with room,
      and by the least recently used page going out otherwise. */
  lemma TouchedPages(k: nat, s: seq<Frame>, f: Frame)
    requires 0 < k && Distinct(s) && |s| <= k
    ensures |Touch(k, s, f)| <= k
    ensures f in s ==> Pages(Touch(k, s, f)) == Pages(s)
    ensures f !in s && |s| < k ==> Pages(Touch(k, s, f)) == Pages(s) + {f}
    ensures f !in s && |s| == k ==> Pages(Touch(k, s, f)) == Pages(s) - {s[k - 1]} + {f}
  {
    WithoutKeeps(s, f);
    if f !in s && |s| == k {
      assert s == s[..k - 1] + [s[k - 1]];
    }
  }

  lemma {:induction false} DistinctCard(s: seq<Frame>)
    requires Distinct(s)
    ensures |Pages(s)| == |s|
  {
    if s != [] {
      DistinctCard(s[1..]);
      assert Pages(s) == {s[0]} + Pages(s[1..]);
    }
  }

  /** The same page moves to the front of the whole stack and of its top. */
  lemma HitOfTake(k: nat, s: seq<Frame>, i: nat)
    requires 0 < k && Distinct(s) && i < |s|
    ensures i < k ==> s[i] in Take(s, k) && [s[i]] + Without(Take(s, k), s[i]) == Take([s[i]] + Without(s, s[i]), k)
    ensures i >= k ==> s[i] !in Take(s, k) && |Take(s, k)| == k && [s[i]] + Take(s, k)[..k - 1] == Take([s[i]] + Without(s, s[i]), k)
  {
    var t := Take(s, k);
    WithoutAt(s, i);
    if i < k {
      assert t[i] == s[i];
      WithoutAt(t, i);
      assert t[..i] == s[..i];
    } else {
      assert t == s[..k];
    }
  }

  /** What LRU keeps in `k` frames is the top of one recency stack that does not depend on `k`. */
  lemma TouchOfTake(k: nat, n: nat, s: seq<Frame>, f: Frame)
    requires 0 < k <= n && Distinct(s) && |s| <= n
    ensures Touch(k, Take(s, k), f) == Take(Touch(n, s, f), k)
  {
    hide Distinct, Without;
    if f in s {
      var i :| 0 <= i < |s| && s[i] == f;
      HitOfTake(k, s, i);
    } else if |s| < k {
      assert Touch(n, s, f) == [f] + s;
    } else {
      assert f !in Take(s, k);
      assert [f] + Take(s, k)[..k - 1] == Take(Touch(n, s, f), k);
    }
  }

  /** The stack property: with fewer frames LRU holds a subset of what it holds with more, at every
      point of every trace. */
  lemma {:induction false} StackProperty(k: nat, n: nat, s: seq<Frame>, refs: seq<Frame>)
    requires 0 < k <= n && Distinct(s) && |s| <= n
    ensures LruContents(k, Take(s, k), refs) == Take(LruContents(n, s, refs), k)
    ensures Pages(LruContents(k, Take(s, k), refs)) <= Pages(LruContents(n, s, refs))
    decreases |refs|
  {
    if refs != [] {
      TouchOfTake(k, n, s, refs[0]);
      TouchKeeps(n, s, refs[0]);
      StackProperty(k, n, Touch(n, s, refs[0]), refs[1..]);
    }
  }

  /** So more frames never mean more page faults under LRU. */
  lemma {:induction false} MoreFramesFewerFaults(k: nat, n: nat, s: seq<Frame>, refs: seq<Frame>)
    requires 0 < k <= n && Distinct(s) && |s| <= n
    ensures LruFaults(n, s, refs) <= LruFaults(k, Take(s, k), refs)
    decreases |refs|
  {
    if refs != [] {
      TouchOfTake(k, n, s, refs[0]);
      TouchKeeps(n, s, refs[0]);
      MoreFramesFewerFaults(k, n, Touch(n, s, refs[0]), refs[1..]);
    }
  }

  /** LRU is a demand-paging schedule, so OPT is never worse than it. */
  lemma {:induction false} LruIsSchedule(k: nat, s: seq<Frame>, refs: seq<Frame>)
    requires 0 < k && Distinct(s) && |s| <= k
    ensures IsSchedule(k, Pages(s), refs, LruSchedule(k, s, refs))
    ensures Faults(Pages(s), refs, LruSchedule(k, s, refs)) == LruFaults(k, s, refs)
    decreases |refs|
  {
    if refs != [] {
      TouchKeeps(k, s, refs[0]);
      LruIsSchedule(k, Touch(k, s, refs[0]), refs[1..]);
    }
  }

  // ----- what recency means -----

  /** The position of the last reference to `f`; -1 if there is none. */
  ghost function LastRef(f: Frame, refs: seq<Frame>): (n: int)
    ensures -1 <= n < |refs| && (n >= 0 ==> refs[n] == f) && forall i :: n < i < |refs| ==> refs[i] != f
  {
    if refs == [] then -1 else if refs[|refs| - 1] == f then |refs| - 1 else LastRef(f, refs[..|refs| - 1])
  }

  /** All referenced pages, the one referenced last in front. */
  ghost function Latest(refs: seq<Frame>): seq<Frame> {
    if refs == [] then []
    else
      var n := |refs| - 1;
      [refs[n]] + Without(Latest(refs[..n]), refs[n])
  }

  /** Later in `s` means referenced longer ago. */
  ghost predicate ByLastRef(s: seq<Frame>, refs: seq<Frame>) {
    forall i, j :: 0 <= i < j < |s| ==> LastRef(s[j], refs) < LastRef(s[i], refs)
  }

  lemma ByLastRefFront(s: seq<Frame>, refs: seq<Frame>, more: seq<Frame>, f: Frame)
    requires ByLastRef(s, refs) && Distinct(s) && more == refs + [f]
    ensures ByLastRef([f] + Without(s, f), more)
  {
    assert more[..|refs|] == refs;
    if f in s {
      var i :| 0 <= i < |s| && s[i] == f;
      hide Without, Distinct, ByLastRef;
      WithoutAt(s, i);
      OthersDiffer(s, i);
      ByLastRefBut(s, refs, i);
      FrontIsLatest(s[..i] + s[i + 1..], refs, more, f);
    } else {
      WithoutAbsent(s, f);
      FrontIsLatest(s, refs, more, f);
    }
  }

  lemma ByLastRefBut(s: seq<Frame>, refs: seq<Frame>, i: nat)
    requires ByLastRef(s, refs) && i < |s|
    ensures ByLastRef(s[..i] + s[i + 1..], refs)
  {
    hide LastRef;
    var rest := s[..i] + s[i + 1..];
    assert forall j :: 0 <= j < |rest| ==> rest[j] == s[if j < i then j else j + 1];
  }

  lemma FrontIsLatest(s: seq<Frame>, refs: seq<Frame>, more: seq<Frame>, f: Frame)
    requires ByLastRef(s, refs) && more == refs + [f] && f !in s
    ensures ByLastRef([f] + s, more)
  {
    assert more[..|refs|] == refs;
    var t := [f] + s;
    forall i, j | 0 <= i < j < |t|
      ensures LastRef(t[j], more) < LastRef(t[i], more)
    {
      assert t[j] == s[j - 1] && (i > 0 ==> t[i] == s[i - 1]);
    }
  }

  /** The order by last reference holds exactly the referenced pages, each once. */
  lemma {:induction false} LatestIsSorted(refs: seq<Frame>)
    ensures Distinct(Latest(refs)) && ByLastRef(Latest(refs), refs)
    ensures forall f :: f in Latest(refs) <==> f in refs
  {
    if refs != [] {
      var n := |refs| - 1;
      var front, f := refs[..n], refs[n];
      assert refs == front + [f];
      LatestIsSorted(front);
      WithoutKeeps(Latest(front), f);
      ByLastRefFront(Latest(front), front, refs, f);
    }
  }

  lemma {:induction false} ContentsGrow(k: nat, s: seq<Frame>, refs: seq<Frame>, f: Frame)
    ensures LruContents(k, s, refs + [f]) == Touch(k, LruContents(k, s, refs), f)
    decreases |refs|
  {
    if refs == [] {
      assert (refs + [f])[1..] == [];
    } else {
      assert (refs + [f])[1..] == refs[1..] + [f];
      ContentsGrow(k, Touch(k, s, refs[0]), refs[1..], f);
    }
  }

  /** The recency order is what its name says: LRU with `k` frames holds the `k` pages referenced last, or
      all of them if they are fewer, in the order of their last references. */
  lemma {:induction false} ContentsAreLatest(k: nat, refs: seq<Frame>)
    requires 0 < k
    ensures LruContents(k, [], refs) == Take(Latest(refs), k)
    ensures Distinct(Latest(refs)) && ByLastRef(Latest(refs), refs) && forall f :: f in Latest(refs) <==> f in refs
    decreases |refs|
  {
    LatestIsSorted(refs);
    if refs != [] {
      var n := |refs| - 1;
      var front, f := refs[..n], refs[n];
      assert front + [f] == refs;
      ContentsAreLatest(k, front);
      ContentsGrow(k, [], front, f);
      var s := Latest(front);
      TouchOfTake(k, k + |s| + 1, s, f);
      if f !in s {
        WithoutAbsent(s, f);
      }
    }
  }
}
