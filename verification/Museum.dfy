/** The shared data of the museum with its critical sections, and a simulation that schedules the
    threads in any order. */
module Museum {
  import opened Extrema
  import opened MuseumProofs
  import opened MuseumSteps

  class Shared {
    var tickets: int
    var guidesInside: int
    var visitorsInside: int
    var visitorsWaiting: int
    /** Where each thread is; threads asleep on a condition variable are found here by the signals. */
    var visitors: seq<VisitorPc>
    var guides: seq<GuidePc>

    function Now(): State
      reads this
    {
      State(tickets, guidesInside, visitorsInside, visitorsWaiting, visitors, guides)
    }

    constructor Init(numGuides: nat, numVisitors: nat)
      ensures Now() == Initial(numGuides, numVisitors)
    {
      tickets := Min(VISITORS_PER_GUIDE * numGuides, numVisitors);
      guidesInside, visitorsInside, visitorsWaiting := 0, 0, 0;
      visitors := seq(numVisitors, _ => Outside);
      guides := seq(numGuides, _ => Arriving);
    }

    method VisitorArrive(v: nat)
      requires v < |visitors| && visitors[v] == Outside
      modifies this
      ensures VisitorArrives(old(Now()), Now(), v)
    {
      if tickets > 0 {
        tickets := tickets - 1;
      } else {
        visitors := visitors[v := Gone(false)];
        return;
      }
      visitorsWaiting := visitorsWaiting + 1;
      guides := All(guides, WakeIdle);
      visitors := visitors[v := Queued];
    }

    method VisitorResume(v: nat)
      requires v < |visitors| && visitors[v] == Called
      modifies this
      ensures VisitorResumes(old(Now()), Now(), v)
    {
      if visitorsInside > VISITORS_PER_GUIDE * guidesInside {
        guides := All(guides, WakeIdle);
        visitors := visitors[v := Queued];
      } else {
        visitors := visitors[v := Touring];
      }
    }

    method VisitorLeave(v: nat)
      requires v < |visitors| && visitors[v] == Touring
      modifies this
      ensures VisitorLeaves(old(Now()), Now(), v)
    {
      visitorsInside := visitorsInside - 1;
      guides := All(guides, WakeLingering);
      visitors := visitors[v := Gone(true)];
    }

    method GuideEnter(g: nat)
      requires g < |guides| && guides[g] == Arriving
      modifies this
      ensures GuideEnters(old(Now()), Now(), g)
    {
      if guidesInside >= GUIDES_ALLOWED_INSIDE {
        guides := guides[g := AtDoor];
      } else {
        guidesInside := guidesInside + 1;
        guides := guides[g := Serving(0)];
      }
    }

    method GuideServe(g: nat)
      requires g < |guides| && guides[g].Serving?
      modifies this
      ensures GuideServes(old(Now()), Now(), g)
    {
      var served := guides[g].served;
      if visitorsWaiting <= 0 {
        guides := guides[g := if tickets <= 0 then Finishing(served) else Idle(served)];
        return;
      }
      visitorsWaiting := visitorsWaiting - 1;
      visitorsInside := visitorsInside + 1;
      if Queued in visitors {
        var v :| 0 <= v < |visitors| && visitors[v] == Queued;
        visitors := visitors[v := Called];
      }
      guides := guides[g := AfterServing(served + 1)];
    }

    method GuideLeave(g: nat)
      requires g < |guides| && guides[g].Finishing?
      modifies this
      ensures GuideLeaves(old(Now()), Now(), g)
    {
      if visitorsInside > 0 {
        guides := guides[g := Lingering(guides[g].served)];
        return;
      }
      guides := guides[g := Left];
      guidesInside := guidesInside - 1;
      if guidesInside == 0 && AtDoor in guides {
        var h :| 0 <= h < |guides| && guides[h] == AtDoor;
        guides := guides[h := Arriving];
      }
      guides := All(guides, WakeLingering);
    }

    /** The next critical section of a runnable thread. */
    method Run(t: Thread)
      requires Runnable(Now(), t)
      modifies this
      ensures Step(old(Now()), Now(), t)
    {
      match t
      case Visitor(v) =>
        match visitors[v] {
          case Outside => VisitorArrive(v);
          case Called => VisitorResume(v);
          case Touring => VisitorLeave(v);
        }
      case Guide(g) =>
        match guides[g] {
          case Arriving => GuideEnter(g);
          case Serving(_) => GuideServe(g);
          case Finishing(_) => GuideLeave(g);
        }
    }
  }

  /** Runs all threads under some scheduler until none can run.  Whatever the scheduler does, it
      comes to an end, everybody has finished, and exactly the visitors with tickets have toured. */
  method Simulate(numGuides: nat, numVisitors: nat) returns (ends: seq<VisitorPc>, steps: nat)
    ensures |ends| == numVisitors && forall v :: 0 <= v < numVisitors ==> ends[v].Gone?
    ensures Sum(ends, Toured) == Min(10 * numGuides, numVisitors)
    ensures steps <= MaxSteps(numGuides, numVisitors)
  {
    var shared := new Shared.Init(numGuides, numVisitors);
    InitialInv(numGuides, numVisitors);
    InitialRemaining(numGuides, numVisitors);
    ghost var tickets := Min(VISITORS_PER_GUIDE * numGuides, numVisitors);
    steps := 0;
    while SomeRunnable(shared.Now())
      invariant Inv(shared.Now()) && TicketsAccounted(shared.Now()) == tickets
      invariant |shared.visitors| == numVisitors && |shared.guides| == numGuides
      invariant steps + Remaining(shared.Now()) <= MaxSteps(numGuides, numVisitors)
      decreases Remaining(shared.Now())
    {
      ghost var before := shared.Now();
      var t: Thread;
      if {
        case v :| 0 <= v < |shared.visitors| && Runnable(shared.Now(), Visitor(v)) => t := Visitor(v);
        case g :| 0 <= g < |shared.guides| && Runnable(shared.Now(), Guide(g)) => t := Guide(g);
      }
      shared.Run(t);
      steps := steps + 1;
      StepInv(before, shared.Now(), t);
      StepDecreases(before, shared.Now(), t);
      RemainingDecreases(before, shared.Now(), t);
    }
    AllFinished(shared.Now());
    RemainingNonNegative(shared.Now());
    ends := shared.visitors;
  }

  predicate SomeRunnable(s: State) {
    || (exists v :: 0 <= v < |s.visitors| && Runnable(s, Visitor(v)))
    || (exists g :: 0 <= g < |s.guides| && Runnable(s, Guide(g)))
  }

  lemma AllFinished(s: State)
    requires Inv(s) && !SomeRunnable(s)
    ensures Finished(s)
    ensures Sum(s.visitors, Toured) == TicketsAccounted(s)
  {
    if !Finished(s) {
      var t := NoDeadlock(s);
      assert false;
    }
    SumBounds(s.visitors, NotArrived, 0, 0);
    SumBounds(s.visitors, Asleep, 0, 0);
    SumBounds(s.visitors, Inside, 0, 0);
  }
}
