/** Safety, deadlock freedom and termination of the museum for any number of threads. */
module MuseumProofs {
  import opened Extrema
  import opened MuseumSteps

  // ----- sums over threads -----

  ghost function Sum<T>(s: seq<T>, f: T -> int): int {
    if s == [] then 0 else f(s[0]) + Sum(s[1..], f)
  }

  lemma {:induction false} SumUpdate<T>(s: seq<T>, i: nat, x: T, f: T -> int)
    requires i < |s|
    ensures Sum(s[i := x], f) == Sum(s, f) - f(s[i]) + f(x)
  {
    if i == 0 {
      assert s[i := x][1..] == s[1..];
    } else {
      assert s[i := x][1..] == s[1..][i - 1 := x];
      SumUpdate(s[1..], i - 1, x, f);
    }
  }

  lemma {:induction false} SumSame<T>(s: seq<T>, t: seq<T>, f: T -> int)
    requires |s| == |t| && forall i :: 0 <= i < |s| ==> f(s[i]) == f(t[i])
    ensures Sum(s, f) == Sum(t, f)
  {
    if s != [] {
      SumSame(s[1..], t[1..], f);
    }
  }

  lemma {:induction false} SumBounds<T>(s: seq<T>, f: T -> int, lo: int, hi: int)
    requires forall i :: 0 <= i < |s| ==> lo <= f(s[i]) <= hi
    ensures lo * |s| <= Sum(s, f) <= hi * |s|
  {
    if s != [] {
      SumBounds(s[1..], f, lo, hi);
    }
  }

  lemma {:induction false} SumAtMost<T>(s: seq<T>, f: T -> int, g: T -> int, c: nat)
    requires forall i :: 0 <= i < |s| ==> f(s[i]) <= c * g(s[i])
    ensures Sum(s, f) <= c * Sum(s, g)
  {
    if s != [] {
      SumAtMost(s[1..], f, g, c);
    }
  }

  /** A positive sum of nonnegative terms has a positive term. */
  lemma {:induction false} PositiveTerm<T>(s: seq<T>, f: T -> int) returns (i: nat)
    requires Sum(s, f) > 0
    ensures i < |s| && f(s[i]) > 0
  {
    if f(s[0]) > 0 {
      i := 0;
    } else {
      i := PositiveTerm(s[1..], f);
      i := i + 1;
    }
  }

  lemma {:induction false} TermAtMostSum<T>(s: seq<T>, f: T -> int, i: nat)
    requires i < |s| && forall j :: 0 <= j < |s| ==> 0 <= f(s[j])
    ensures f(s[i]) <= Sum(s, f)
  {
    SumBounds(s[1..], f, 0, f(s[0]) + Sum(s[1..], f) + 1) by {
      forall j | 0 <= j < |s[1..]|
        ensures f(s[1..][j]) <= Sum(s[1..], f)
      {
        TermAtMostSum(s[1..], f, j);
      }
    }
    if i > 0 {
      TermAtMostSum(s[1..], f, i - 1);
    }
  }

  // ----- what is counted -----

  function NotArrived(v: VisitorPc): int { if v.Outside? then 1 else 0 }
  function Asleep(v: VisitorPc): int { if v.Queued? then 1 else 0 }
  function Inside(v: VisitorPc): int { if v.Called? || v.Touring? then 1 else 0 }
  function Toured(v: VisitorPc): int { if v.Gone? && v.toured then 1 else 0 }

  function Entered(g: GuidePc): int { if g.Arriving? || g.AtDoor? || g.Left? then 0 else 1 }

  /** How many visitors the guide can still admit. */
  function Capacity(g: GuidePc): int {
    match g
    case Arriving => VISITORS_PER_GUIDE
    case AtDoor => VISITORS_PER_GUIDE
    case Serving(k) => VISITORS_PER_GUIDE - k
    case Idle(k) => VISITORS_PER_GUIDE - k
    case _ => 0
  }

  /** How many visitors a guide that is inside has admitted. */
  function Admitted(g: GuidePc): int {
    match g
    case Serving(k) => k
    case Idle(k) => k
    case Finishing(k) => k
    case Lingering(k) => k
    case _ => 0
  }

  predicate InRange(g: GuidePc) {
    match g
    case Serving(k) => k < VISITORS_PER_GUIDE
    case Idle(k) => k < VISITORS_PER_GUIDE
    case Finishing(k) => k <= VISITORS_PER_GUIDE
    case Lingering(k) => k <= VISITORS_PER_GUIDE
    case _ => true
  }

  // ----- the invariant -----

  /** The shared counters count what they are meant to count. */
  ghost predicate Counted(s: State) {
    && s.guidesInside == Sum(s.guides, Entered)
    && s.visitorsWaiting == Sum(s.visitors, Asleep)
    && s.visitorsInside == Sum(s.visitors, Inside)
    && forall g :: 0 <= g < |s.guides| ==> InRange(s.guides[g])
  }

  /** The ledger of tickets: what is still to be served fits what the unfinished guides can serve,
      and the tickets left fit the visitors still to come. */
  ghost predicate Ledger(s: State) {
    && 0 <= s.tickets <= Sum(s.visitors, NotArrived)
    && s.tickets + s.visitorsWaiting <= Sum(s.guides, Capacity)
    && s.visitorsInside <= Sum(s.guides, Admitted)
    && s.guidesInside <= GUIDES_ALLOWED_INSIDE
  }

  /** No wakeup is lost: whoever sleeps on a condition variable still has a reason to, or somebody
      is about to test the condition. */
  ghost predicate NoLostWakeup(s: State) {
    && (forall g :: 0 <= g < |s.guides| && s.guides[g].Idle? ==> s.visitorsWaiting == 0 && s.tickets > 0)
    && (forall g :: 0 <= g < |s.guides| && s.guides[g].Lingering? ==> s.visitorsInside > 0)
    && (AtDoor in s.guides ==> s.guidesInside > 0 || Arriving in s.guides)
  }

  ghost predicate Inv(s: State) {
    Counted(s) && Ledger(s) && NoLostWakeup(s)
  }

  /** Every ticket is unsold, waiting, inside or used up. */
  ghost function TicketsAccounted(s: State): int {
    s.tickets + s.visitorsWaiting + s.visitorsInside + Sum(s.visitors, Toured)
  }

  lemma InitialInv(guides: nat, visitors: nat)
    ensures Inv(Initial(guides, visitors))
    ensures TicketsAccounted(Initial(guides, visitors)) == Min(VISITORS_PER_GUIDE * guides, visitors)
  {
    var s := Initial(guides, visitors);
    SumBounds(s.visitors, NotArrived, 1, 1);
    SumBounds(s.visitors, Asleep, 0, 0);
    SumBounds(s.visitors, Inside, 0, 0);
    SumBounds(s.visitors, Toured, 0, 0);
    SumBounds(s.guides, Entered, 0, 0);
    SumBounds(s.guides, Capacity, VISITORS_PER_GUIDE, VISITORS_PER_GUIDE);
    SumBounds(s.guides, Admitted, 0, 0);
  }

  /** In every reachable state the museum is within its limits, so a woken visitor never has to
      queue again. */
  lemma WithinLimits(s: State)
    requires Inv(s)
    ensures 0 <= s.guidesInside <= 2
    ensures 0 <= s.visitorsInside <= 10 * s.guidesInside
    ensures 0 <= s.visitorsWaiting
  {
    SumBounds(s.guides, Entered, 0, 1);
    SumBounds(s.visitors, Inside, 0, 1);
    SumBounds(s.visitors, Asleep, 0, 1);
    SumAtMost(s.guides, Admitted, Entered, VISITORS_PER_GUIDE);
  }

  /** So the test that would send an admitted visitor back into the queue never fires. */
  lemma AdmittedVisitorTours(s: State, s': State, v: nat)
    requires Inv(s) && VisitorResumes(s, s', v)
    ensures s' == s.(visitors := s.visitors[v := Touring])
  {
    WithinLimits(s);
  }

  // ----- preservation -----

  lemma VisitorUpdate(vs: seq<VisitorPc>, i: nat, x: VisitorPc)
    requires i < |vs|
    ensures var ws := vs[i := x];
            && Sum(ws, NotArrived) == Sum(vs, NotArrived) - NotArrived(vs[i]) + NotArrived(x)
            && Sum(ws, Asleep) == Sum(vs, Asleep) - Asleep(vs[i]) + Asleep(x)
            && Sum(ws, Inside) == Sum(vs, Inside) - Inside(vs[i]) + Inside(x)
            && Sum(ws, Toured) == Sum(vs, Toured) - Toured(vs[i]) + Toured(x)
  {
    SumUpdate(vs, i, x, NotArrived);
    SumUpdate(vs, i, x, Asleep);
    SumUpdate(vs, i, x, Inside);
    SumUpdate(vs, i, x, Toured);
  }

  lemma GuideUpdate(gs: seq<GuidePc>, i: nat, x: GuidePc)
    requires i < |gs|
    ensures var hs := gs[i := x];
            && Sum(hs, Entered) == Sum(gs, Entered) - Entered(gs[i]) + Entered(x)
            && Sum(hs, Capacity) == Sum(gs, Capacity) - Capacity(gs[i]) + Capacity(x)
            && Sum(hs, Admitted) == Sum(gs, Admitted) - Admitted(gs[i]) + Admitted(x)
  {
    SumUpdate(gs, i, x, Entered);
    SumUpdate(gs, i, x, Capacity);
    SumUpdate(gs, i, x, Admitted);
  }

  /** Waking changes none of the sums over guides. */
  lemma WakeSums(gs: seq<GuidePc>, hs: seq<GuidePc>)
    requires hs == All(gs, WakeIdle) || hs == All(gs, WakeLingering)
    ensures Sum(hs, Entered) == Sum(gs, Entered)
    ensures Sum(hs, Capacity) == Sum(gs, Capacity)
    ensures Sum(hs, Admitted) == Sum(gs, Admitted)
  {
    SumSame(hs, gs, Entered);
    SumSame(hs, gs, Capacity);
    SumSame(hs, gs, Admitted);
  }

  lemma NonNegative(s: State)
    requires Counted(s)
    ensures 0 <= s.visitorsWaiting && 0 <= s.visitorsInside && 0 <= s.guidesInside
    ensures 0 <= Sum(s.visitors, NotArrived)
    ensures 0 <= Sum(s.guides, Admitted)
  {
    SumBounds(s.guides, Entered, 0, 1);
    SumBounds(s.visitors, Inside, 0, 1);
    SumBounds(s.visitors, Asleep, 0, 1);
    SumBounds(s.visitors, NotArrived, 0, 1);
    SumBounds(s.guides, Admitted, 0, VISITORS_PER_GUIDE);
  }

  lemma VisitorStepInv(s: State, s': State, v: nat)
    requires Inv(s) && Step(s, s', Visitor(v))
    ensures Inv(s') && TicketsAccounted(s') == TicketsAccounted(s)
  {
    hide Sum;
    WithinLimits(s);
    NonNegative(s);
    VisitorUpdate(s.visitors, v, s'.visitors[v]);
    if s'.guides != s.guides {
      WakeSums(s.guides, s'.guides);
    }
    NonNegative(s');
    assert forall g :: 0 <= g < |s.guides| && s.guides[g] == Arriving ==> s'.guides[g] == Arriving;
  }

  lemma GuideEntersInv(s: State, s': State, g: nat)
    requires Inv(s) && GuideEnters(s, s', g)
    ensures Inv(s') && TicketsAccounted(s') == TicketsAccounted(s)
  {
    GuideUpdate(s.guides, g, s'.guides[g]);
    NonNegative(s);
  }

  lemma GuideAdmitsInv(s: State, s': State, g: nat)
    requires Inv(s) && GuideServes(s, s', g) && s.visitorsWaiting > 0
    ensures Inv(s') && TicketsAccounted(s') == TicketsAccounted(s)
  {
    NonNegative(s);
    GuideUpdate(s.guides, g, s'.guides[g]);
    var i := PositiveTerm(s.visitors, Asleep);
    var v :| 0 <= v < |s.visitors| && s.visitors[v] == Queued && s'.visitors == s.visitors[v := Called];
    VisitorUpdate(s.visitors, v, Called);
    assert Arriving in s.guides ==> Arriving in s'.guides by {
      ArrivingKept(s.guides, s'.guides);
    }
  }

  lemma ArrivingKept(gs: seq<GuidePc>, hs: seq<GuidePc>)
    requires |gs| == |hs| && forall g :: 0 <= g < |gs| && gs[g] == Arriving ==> hs[g] == Arriving
    ensures Arriving in gs ==> Arriving in hs
  {
    if Arriving in gs {
      var g :| 0 <= g < |gs| && gs[g] == Arriving;
      assert hs[g] == Arriving;
    }
  }

  lemma GuideStopsInv(s: State, s': State, g: nat)
    requires Inv(s) && GuideServes(s, s', g) && s.visitorsWaiting <= 0
    ensures Inv(s') && TicketsAccounted(s') == TicketsAccounted(s)
  {
    NonNegative(s);
    GuideUpdate(s.guides, g, s'.guides[g]);
    ArrivingKept(s.guides, s'.guides);
    SumBounds(s'.guides, Capacity, 0, VISITORS_PER_GUIDE);
  }

  lemma GuideLingersInv(s: State, s': State, g: nat)
    requires Inv(s) && GuideLeaves(s, s', g) && s.visitorsInside > 0
    ensures Inv(s') && TicketsAccounted(s') == TicketsAccounted(s)
  {
    GuideUpdate(s.guides, g, s'.guides[g]);
    ArrivingKept(s.guides, s'.guides);
  }

  /** The guides once one has left, before the lingering ones wake up. */
  lemma GuidesAfterLeaving(s: State, s': State, g: nat) returns (mid: seq<GuidePc>)
    requires GuideLeaves(s, s', g) && s.visitorsInside <= 0
    ensures if s.guidesInside == 1 then Signal(s.guides[g := Left], mid, AtDoor, Arriving) else mid == s.guides[g := Left]
    ensures s' == s.(guidesInside := s.guidesInside - 1, guides := All(mid, WakeLingering))
  {
    mid :| && (if s.guidesInside == 1 then Signal(s.guides[g := Left], mid, AtDoor, Arriving)
               else mid == s.guides[g := Left])
           && s' == s.(guidesInside := s.guidesInside - 1, guides := All(mid, WakeLingering));
  }

  lemma GuideGoesInv(s: State, s': State, g: nat)
    requires Inv(s) && GuideLeaves(s, s', g) && s.visitorsInside <= 0
    ensures Inv(s') && TicketsAccounted(s') == TicketsAccounted(s)
  {
    var mid := GuidesAfterLeaving(s, s', g);
    hide Sum, NoLostWakeup, GuideLeaves, Signal, InRange;
    var i := GuideGoesSums(s, g, mid);
    WakeSums(mid, s'.guides);
    if i < |mid| {
      assert s'.guides[i] == Arriving;
    }
    GoneWakeups(s, s', mid);
  }

  /** Sums after a guide has left and perhaps called in another one, at position `i`. */
  lemma GuideGoesSums(s: State, g: nat, mid: seq<GuidePc>) returns (i: nat)
    requires Inv(s) && g < |s.guides| && s.guides[g].Finishing? && s.visitorsInside <= 0
    requires if s.guidesInside == 1 then Signal(s.guides[g := Left], mid, AtDoor, Arriving) else mid == s.guides[g := Left]
    ensures |mid| == |s.guides|
    ensures Sum(mid, Entered) == Sum(s.guides, Entered) - 1 >= 0
    ensures Sum(mid, Capacity) == Sum(s.guides, Capacity)
    ensures Sum(mid, Admitted) >= 0 >= s.visitorsInside
    ensures forall h :: 0 <= h < |mid| ==> mid[h] == s.guides[h] || mid[h] == Left || mid[h] == Arriving
    ensures i < |mid| ==> mid[i] == Arriving
    ensures s.guidesInside == 1 && AtDoor in mid ==> i < |mid|
  {
    hide Sum, NoLostWakeup, Ledger;
    var gone := s.guides[g := Left];
    GuideUpdate(s.guides, g, Left);
    i := |mid|;
    if s.guidesInside == 1 && AtDoor in gone {
      i :| 0 <= i < |gone| && gone[i] == AtDoor && mid == gone[i := Arriving];
      GuideUpdate(gone, i, Arriving);
    }
    SumBounds(mid, Entered, 0, 1);
    SumBounds(mid, Admitted, 0, VISITORS_PER_GUIDE);
  }

  lemma GoneWakeups(s: State, s': State, mid: seq<GuidePc>)
    requires NoLostWakeup(s) && s'.visitorsWaiting == s.visitorsWaiting && s'.tickets == s.tickets
    requires |mid| == |s.guides| && s'.guides == All(mid, WakeLingering)
    requires forall h :: 0 <= h < |mid| ==> mid[h] == s.guides[h] || mid[h] == Left || mid[h] == Arriving
    requires AtDoor in mid ==> s'.guidesInside > 0 || Arriving in s'.guides
    ensures NoLostWakeup(s')
  {
    assert AtDoor in s'.guides ==> AtDoor in mid;
  }

  /** Every step of every thread keeps the invariant and accounts for every ticket. */
  lemma StepInv(s: State, s': State, t: Thread)
    requires Inv(s) && Step(s, s', t)
    ensures Inv(s') && TicketsAccounted(s') == TicketsAccounted(s)
  {
    match t
    case Visitor(v) => VisitorStepInv(s, s', v);
    case Guide(g) =>
      if GuideEnters(s, s', g) {
        GuideEntersInv(s, s', g);
      } else if GuideServes(s, s', g) {
        if s.visitorsWaiting > 0 {
          GuideAdmitsInv(s, s', g);
        } else {
          GuideStopsInv(s, s', g);
        }
      } else if s.visitorsInside > 0 {
        GuideLingersInv(s, s', g);
      } else {
        GuideGoesInv(s, s', g);
      }
  }

  // ----- deadlock freedom -----

  /** A visitor that is inside, or still to come, can take a step. */
  lemma VisitorCanStep(s: State) returns (t: Thread)
    requires Inv(s) && (s.visitorsInside > 0 || s.tickets > 0)
    ensures Runnable(s, t)
  {
    var v: nat;
    if s.visitorsInside > 0 {
      v := PositiveTerm(s.visitors, Inside);
    } else {
      v := PositiveTerm(s.visitors, NotArrived);
    }
    t := Visitor(v);
  }

  /** If some guide is inside, somebody can take a step. */
  lemma GuideInsideCanStep(s: State) returns (t: Thread)
    requires Inv(s) && s.guidesInside > 0
    ensures Runnable(s, t)
  {
    var g := PositiveTerm(s.guides, Entered);
    if s.guides[g].Idle? || s.guides[g].Lingering? {
      t := VisitorCanStep(s);
    } else {
      t := Guide(g);
    }
  }

  /** A guide that has not left, wherever it is, can step or waits for somebody who can. */
  lemma UnfinishedGuideCanStep(s: State, g: nat) returns (t: Thread)
    requires Inv(s) && g < |s.guides| && !s.guides[g].Left?
    ensures Runnable(s, t)
  {
    if s.guides[g] == AtDoor {
      if s.guidesInside > 0 {
        t := GuideInsideCanStep(s);
      } else {
        var h :| 0 <= h < |s.guides| && s.guides[h] == Arriving;
        t := Guide(h);
      }
    } else if s.guides[g].Idle? || s.guides[g].Lingering? {
      t := VisitorCanStep(s);
    } else {
      t := Guide(g);
    }
  }

  /** Deadlock freedom: as long as some thread has not finished, some thread can take a step. */
  lemma NoDeadlock(s: State) returns (t: Thread)
    requires Inv(s) && !Finished(s)
    ensures Runnable(s, t)
  {
    if g :| 0 <= g < |s.guides| && !s.guides[g].Left? {
      t := UnfinishedGuideCanStep(s, g);
    } else {
      var v :| 0 <= v < |s.visitors| && !s.visitors[v].Gone?;
      if s.visitors[v] == Queued {
        // its ticket is backed by a guide that can still admit somebody
        SumBounds(s.guides, Capacity, 0, 0);
        TermAtMostSum(s.visitors, Asleep, v);
        assert false;
      } else {
        t := Visitor(v);
      }
    }
  }

  // ----- termination -----

  function VisitorRank(v: VisitorPc): int {
    match v
    case Outside => 4
    case Queued => 3
    case Called => 2
    case Touring => 1
    case Gone(_) => 0
  }

  function GuideRank(g: GuidePc): int {
    match g
    case Arriving => 13
    case AtDoor => 13
    case Serving(k) => 12 - k
    case Idle(k) => 12 - k
    case Finishing(_) => 1
    case Lingering(_) => 1
    case Left => 0
  }

  function Awake(g: GuidePc): int { if g.Arriving? || g.Serving? || g.Finishing? then 1 else 0 }

  /** Progress still to be made, weighted so that it outweighs any number of guides woken up. */
  ghost function Remaining(s: State): int {
    Rank(s) * (|s.guides| + 1) + Sum(s.guides, Awake)
  }

  ghost function Rank(s: State): int {
    Sum(s.visitors, VisitorRank) + Sum(s.guides, GuideRank)
  }

  /** A step either makes progress, or puts a guide to sleep and changes nothing else. */
  lemma StepDecreases(s: State, s': State, t: Thread)
    requires Inv(s) && Step(s, s', t)
    ensures |s'.guides| == |s.guides| && |s'.visitors| == |s.visitors|
    ensures Rank(s') < Rank(s) || (Rank(s') == Rank(s) && Sum(s'.guides, Awake) < Sum(s.guides, Awake))
  {
    match t
    case Visitor(v) => VisitorDecreases(s, s', v);
    case Guide(g) =>
      if GuideLeaves(s, s', g) && s.visitorsInside <= 0 {
        GuideGoesDecreases(s, s', g);
      } else {
        GuideDecreases(s, s', g);
      }
  }

  lemma VisitorDecreases(s: State, s': State, v: nat)
    requires Inv(s) && Step(s, s', Visitor(v))
    ensures |s'.guides| == |s.guides| && |s'.visitors| == |s.visitors| && Rank(s') < Rank(s)
  {
    hide NoLostWakeup, Ledger, Sum;
    WithinLimits(s);
    SumUpdate(s.visitors, v, s'.visitors[v], VisitorRank);
    SumSame(s.guides, s'.guides, GuideRank);
  }

  /** A guide that does not go home yet gets on, admits a visitor, or falls asleep. */
  lemma GuideDecreases(s: State, s': State, g: nat)
    requires Inv(s) && Step(s, s', Guide(g)) && !(GuideLeaves(s, s', g) && s.visitorsInside <= 0)
    ensures |s'.guides| == |s.guides| && |s'.visitors| == |s.visitors|
    ensures Rank(s') < Rank(s) || (Rank(s') == Rank(s) && Sum(s'.guides, Awake) < Sum(s.guides, Awake))
  {
    hide NoLostWakeup, Ledger, Sum;
    SumUpdate(s.guides, g, s'.guides[g], GuideRank);
    SumUpdate(s.guides, g, s'.guides[g], Awake);
    if s'.visitors != s.visitors {
      var v :| 0 <= v < |s.visitors| && s.visitors[v] == Queued && s'.visitors == s.visitors[v := Called];
      SumUpdate(s.visitors, v, Called, VisitorRank);
    }
  }

  lemma GuideGoesDecreases(s: State, s': State, g: nat)
    requires GuideLeaves(s, s', g) && s.visitorsInside <= 0
    ensures |s'.guides| == |s.guides| && Rank(s') < Rank(s)
  {
    hide Sum;
    var gone := s.guides[g := Left];
    var mid := GuidesAfterLeaving(s, s', g);
    SumUpdate(s.guides, g, Left, GuideRank);
    if mid != gone {
      var i :| 0 <= i < |gone| && gone[i] == AtDoor && mid == gone[i := Arriving];
      SumUpdate(gone, i, Arriving, GuideRank);
    }
    SumSame(mid, s'.guides, GuideRank);
  }

  lemma RemainingDecreases(s: State, s': State, t: Thread)
    requires Inv(s) && Step(s, s', t)
    ensures 0 <= Remaining(s') < Remaining(s)
  {
    StepInv(s, s', t);
    RemainingNonNegative(s');
    RemainingDrops(s, s', t);
  }

  lemma RemainingDrops(s: State, s': State, t: Thread)
    requires Inv(s) && Step(s, s', t)
    ensures Remaining(s') < Remaining(s)
  {
    StepDecreases(s, s', t);
    var n := |s.guides| + 1;
    SumBounds(s.guides, Awake, 0, 1);
    SumBounds(s'.guides, Awake, 0, 1);
    if Rank(s') < Rank(s) {
      WeightedDrop(Rank(s), Rank(s'), n, Sum(s'.guides, Awake));
    }
  }

  lemma WeightedDrop(r: int, r': int, n: int, a: int)
    requires r' < r && 0 < n && a < n
    ensures r' * n + a < r * n
  {
    assert 0 <= (r - 1 - r') * n;
    assert (r - 1 - r') * n == r * n - n - r' * n;
  }

  lemma RemainingNonNegative(s: State)
    requires Inv(s)
    ensures 0 <= Remaining(s)
  {
    SumBounds(s.visitors, VisitorRank, 0, 4);
    SumBounds(s.guides, GuideRank, 0, 13);
    SumBounds(s.guides, Awake, 0, 1);
    assert 0 <= Rank(s) * (|s.guides| + 1);
  }

  // ----- whole runs -----

  /** Along every run the invariant holds, tickets are conserved and progress is used up. */
  lemma {:induction false} RunInv(states: seq<State>, threads: seq<Thread>, n: nat)
    requires IsRun(states, threads) && Inv(states[0]) && n < |states|
    ensures Inv(states[n]) && TicketsAccounted(states[n]) == TicketsAccounted(states[0])
    ensures |states[n].guides| == |states[0].guides| && |states[n].visitors| == |states[0].visitors|
    ensures 0 <= Remaining(states[n]) <= Remaining(states[0]) - n
  {
    if n == 0 {
      RemainingNonNegative(states[0]);
    } else {
      RunInv(states, threads, n - 1);
      StepInv(states[n - 1], states[n], threads[n - 1]);
      StepDecreases(states[n - 1], states[n], threads[n - 1]);
      RemainingDecreases(states[n - 1], states[n], threads[n - 1]);
    }
  }

  /** The most steps a museum with that many threads can take. */
  function MaxSteps(guides: nat, visitors: nat): nat {
    (4 * visitors + 13 * guides) * (guides + 1) + guides
  }

  lemma InitialRemaining(guides: nat, visitors: nat)
    ensures Remaining(Initial(guides, visitors)) == MaxSteps(guides, visitors)
  {
    var s := Initial(guides, visitors);
    SumBounds(s.visitors, VisitorRank, 4, 4);
    SumBounds(s.guides, GuideRank, 13, 13);
    SumBounds(s.guides, Awake, 1, 1);
  }

  /** Every run is finite, however the threads are scheduled. */
  lemma RunsAreBounded(guides: nat, visitors: nat, states: seq<State>, threads: seq<Thread>)
    requires IsRun(states, threads) && states[0] == Initial(guides, visitors)
    ensures |threads| <= MaxSteps(guides, visitors)
  {
    InitialInv(guides, visitors);
    InitialRemaining(guides, visitors);
    RunInv(states, threads, |threads|);
  }

  /** A run that cannot be continued has ended well: every thread has finished, and as many visitors
      have toured the museum as there were tickets. */
  lemma MaximalRunsFinish(guides: nat, visitors: nat, states: seq<State>, threads: seq<Thread>)
    requires IsRun(states, threads) && states[0] == Initial(guides, visitors)
    requires forall t, s' :: !Step(states[|threads|], s', t)
    ensures Finished(states[|threads|])
    ensures Sum(states[|threads|].visitors, Toured) == Min(10 * guides, visitors)
  {
    var end := states[|threads|];
    InitialInv(guides, visitors);
    RunInv(states, threads, |threads|);
    if !Finished(end) {
      var t := NoDeadlock(end);
      var s' := RunnableSteps(end, t);
      assert false;
    }
    SumBounds(end.visitors, NotArrived, 0, 0);
    SumBounds(end.visitors, Asleep, 0, 0);
    SumBounds(end.visitors, Inside, 0, 0);
  }

  // ----- who waits at the door -----

  /** The guide has been inside, or is. */
  function HasEntered(g: GuidePc): int { if g.Arriving? || g.AtDoor? then 0 else 1 }

  /** A guide goes to sleep at the door only while two others are inside, and who has entered has entered
      for good. */
  lemma DoorStep(s: State, s': State, t: Thread)
    requires Inv(s) && Step(s, s', t)
    ensures |s'.guides| == |s.guides| && Sum(s'.guides, HasEntered) >= Sum(s.guides, HasEntered)
    ensures AtDoor in s'.guides ==> AtDoor in s.guides || Sum(s'.guides, HasEntered) >= 2
  {
    hide Sum, Ledger, NoLostWakeup;
    match t
    case Visitor(v) =>
      SumSame(s.guides, s'.guides, HasEntered);
      assert forall g :: 0 <= g < |s.guides| && s'.guides[g] == AtDoor ==> s.guides[g] == AtDoor;
    case Guide(g) =>
      if GuideLeaves(s, s', g) && s.visitorsInside <= 0 {
        DoorAfterLeaving(s, s', g);
      } else {
        SumUpdate(s.guides, g, s'.guides[g], HasEntered);
        SumAtMost(s.guides, Entered, HasEntered, 1);
      }
  }

  lemma DoorAfterLeaving(s: State, s': State, g: nat)
    requires GuideLeaves(s, s', g) && s.visitorsInside <= 0
    ensures |s'.guides| == |s.guides| && Sum(s'.guides, HasEntered) >= Sum(s.guides, HasEntered)
    ensures AtDoor in s'.guides ==> AtDoor in s.guides
  {
    hide Sum;
    var gone := s.guides[g := Left];
    var mid := GuidesAfterLeaving(s, s', g);
    SumUpdate(s.guides, g, Left, HasEntered);
    if mid != gone {
      var i :| 0 <= i < |gone| && gone[i] == AtDoor && mid == gone[i := Arriving];
      SumUpdate(gone, i, Arriving, HasEntered);
    }
    SumSame(mid, s'.guides, HasEntered);
    assert forall h :: 0 <= h < |mid| && s'.guides[h] == AtDoor ==> mid[h] == AtDoor;
    assert forall h :: 0 <= h < |mid| && mid[h] == AtDoor ==> s.guides[h] == AtDoor;
  }

  lemma {:induction false} DoorInv(states: seq<State>, threads: seq<Thread>, n: nat)
    requires IsRun(states, threads) && Inv(states[0]) && AtDoor !in states[0].guides && n < |states|
    ensures AtDoor in states[n].guides ==> Sum(states[n].guides, HasEntered) >= 2
  {
    if n > 0 {
      DoorInv(states, threads, n - 1);
      RunInv(states, threads, n - 1);
      DoorStep(states[n - 1], states[n], threads[n - 1]);
    }
  }

  /** A sum of at least two over terms of at most one has two positive terms. */
  lemma {:induction false} TwoTerms<T>(s: seq<T>, f: T -> int) returns (i: nat, j: nat)
    requires Sum(s, f) >= 2 && forall k :: 0 <= k < |s| ==> f(s[k]) <= 1
    ensures i < j < |s| && f(s[i]) > 0 && f(s[j]) > 0
  {
    if f(s[0]) > 0 {
      j := PositiveTerm(s[1..], f);
      i, j := 0, j + 1;
    } else {
      i, j := TwoTerms(s[1..], f);
      i, j := i + 1, j + 1;
    }
  }

  /** A guide has to wait at the door only behind two guides that got in before it; so with two guides or
      fewer none ever waits there. */
  lemma DoorIsOpen(guides: nat, visitors: nat, states: seq<State>, threads: seq<Thread>, n: nat)
    requires IsRun(states, threads) && states[0] == Initial(guides, visitors) && n < |states|
    ensures AtDoor in states[n].guides ==>
              exists i, j :: 0 <= i < j < |states[n].guides| && !states[n].guides[i].Arriving? && !states[n].guides[i].AtDoor?
                && !states[n].guides[j].Arriving? && !states[n].guides[j].AtDoor?
    ensures guides <= 2 ==> AtDoor !in states[n].guides
  {
    InitialInv(guides, visitors);
    DoorInv(states, threads, n);
    RunInv(states, threads, n);
    if AtDoor in states[n].guides {
      var gs := states[n].guides;
      var i, j := TwoTerms(gs, HasEntered);
      var k :| 0 <= k < |gs| && gs[k] == AtDoor;
      assert k != i && k != j && i != j;
    }
  }

  /** A guide at the door is called in only when the last one inside has left, and then it is the only one. */
  lemma DoorOpensWhenEmpty(s: State, s': State, t: Thread, g: nat)
    requires Inv(s) && Step(s, s', t) && g < |s.guides| && s.guides[g] == AtDoor && s'.guides[g] != AtDoor
    ensures s'.guidesInside == 0 && s'.guides[g] == Arriving
    ensures forall h :: 0 <= h < |s.guides| && h != g && s.guides[h] == AtDoor ==> s'.guides[h] == AtDoor
  {
    hide Inv;
    if t.Guide? && GuideLeaves(s, s', t.id) && s.visitorsInside <= 0 {
      var mid := GuidesAfterLeaving(s, s', t.id);
      assert mid[g] != AtDoor && s.guides[t.id := Left][g] == AtDoor;
    }
  }

  // ----- every moment of every run -----

  /** At every moment of every run the museum is within its limits and every ticket is accounted
      for. */
  lemma RunsAreSafe(guides: nat, visitors: nat, states: seq<State>, threads: seq<Thread>, n: nat)
    requires IsRun(states, threads) && states[0] == Initial(guides, visitors) && n < |states|
    ensures var s := states[n];
            && 0 <= s.guidesInside <= 2
            && 0 <= s.visitorsInside <= 10 * s.guidesInside
            && 0 <= s.tickets && 0 <= s.visitorsWaiting
            && s.tickets + s.visitorsWaiting + s.visitorsInside + Sum(s.visitors, Toured) == Min(10 * guides, visitors)
  {
    InitialInv(guides, visitors);
    RunInv(states, threads, n);
    WithinLimits(states[n]);
  }
}
