/** The museum monitor as a step system.  A step is what one thread does between taking the lock
    and giving it up again, by unlocking or by waiting on a condition variable. */
module MuseumSteps {
  import opened Extrema

  const VISITORS_PER_GUIDE := 10
  const GUIDES_ALLOWED_INSIDE := 2

  /** Where a visitor thread is.  `Queued` sleeps on visitor_can_enter and `Called` has been woken. */
  datatype VisitorPc = Outside | Queued | Called | Touring | Gone(toured: bool)

  /** Where a guide thread is.  `AtDoor` sleeps on guide_can_enter, `Idle` on visitors_are_waiting and
      `Lingering` on guide_can_leave; a woken guide is back at the test it slept in. */
  datatype GuidePc =
    | Arriving | AtDoor
    | Serving(served: nat) | Idle(served: nat)
    | Finishing(served: nat) | Lingering(served: nat)
    | Left

  datatype State = State(
    tickets: int, guidesInside: int, visitorsInside: int, visitorsWaiting: int,
    visitors: seq<VisitorPc>, guides: seq<GuidePc>)

  /** The state after museum_init with all threads created. */
  function Initial(guides: nat, visitors: nat): State {
    State(Min(VISITORS_PER_GUIDE * guides, visitors), 0, 0, 0, seq(visitors, _ => Outside), seq(guides, _ => Arriving))
  }

  // ----- condition variables -----

  function WakeIdle(g: GuidePc): GuidePc { if g.Idle? then Serving(g.served) else g }

  function WakeLingering(g: GuidePc): GuidePc { if g.Lingering? then Finishing(g.served) else g }

  function All<T>(s: seq<T>, wake: T -> T): (r: seq<T>)
    ensures |r| == |s| && forall i :: 0 <= i < |s| ==> r[i] == wake(s[i])
  {
    seq(|s|, i requires 0 <= i < |s| => wake(s[i]))
  }

  /** A signal turns one thread at `asleep` into one at `awake`; it is lost if there is none. */
  ghost predicate Signal<T>(before: seq<T>, after: seq<T>, asleep: T, awake: T) {
    if asleep in before then exists i :: 0 <= i < |before| && before[i] == asleep && after == before[i := awake]
    else after == before
  }

  // ----- critical sections -----

  /** A visitor arrives: with a ticket it queues and wakes the idle guides, otherwise it goes home. */
  ghost predicate VisitorArrives(s: State, s': State, v: nat) {
    && v < |s.visitors| && s.visitors[v] == Outside
    && s' == if s.tickets > 0
             then s.(tickets := s.tickets - 1, visitorsWaiting := s.visitorsWaiting + 1,
                     visitors := s.visitors[v := Queued], guides := All(s.guides, WakeIdle))
             else s.(visitors := s.visitors[v := Gone(false)])
  }

  /** A woken visitor tests whether the museum is over capacity, and then queues again. */
  ghost predicate VisitorResumes(s: State, s': State, v: nat) {
    && v < |s.visitors| && s.visitors[v] == Called
    && s' == if s.visitorsInside > VISITORS_PER_GUIDE * s.guidesInside
             then s.(visitors := s.visitors[v := Queued], guides := All(s.guides, WakeIdle))
             else s.(visitors := s.visitors[v := Touring])
  }

  ghost predicate VisitorLeaves(s: State, s': State, v: nat) {
    && v < |s.visitors| && s.visitors[v] == Touring
    && s' == s.(visitorsInside := s.visitorsInside - 1, visitors := s.visitors[v := Gone(true)],
                guides := All(s.guides, WakeLingering))
  }

  ghost predicate GuideEnters(s: State, s': State, g: nat) {
    && g < |s.guides| && s.guides[g] == Arriving
    && s' == if s.guidesInside >= GUIDES_ALLOWED_INSIDE
             then s.(guides := s.guides[g := AtDoor])
             else s.(guidesInside := s.guidesInside + 1, guides := s.guides[g := Serving(0)])
  }

  /** The guide's position once it has served `served` visitors. */
  function AfterServing(served: nat): GuidePc {
    if served < VISITORS_PER_GUIDE then Serving(served) else Finishing(served)
  }

  /** A guide admits one visitor, sleeps if more are expected, or stops serving. */
  ghost predicate GuideServes(s: State, s': State, g: nat) {
    && g < |s.guides| && s.guides[g].Serving?
    && var served := s.guides[g].served;
       if s.visitorsWaiting > 0
       then && s' == s.(visitorsWaiting := s.visitorsWaiting - 1, visitorsInside := s.visitorsInside + 1,
                        visitors := s'.visitors, guides := s.guides[g := AfterServing(served + 1)])
            && Signal(s.visitors, s'.visitors, Queued, Called)
       else s' == s.(guides := s.guides[g := if s.tickets <= 0 then Finishing(served) else Idle(served)])
  }

  /** A guide leaves once the museum is empty of visitors; the last one lets another one in. */
  ghost predicate GuideLeaves(s: State, s': State, g: nat) {
    && g < |s.guides| && s.guides[g].Finishing?
    && if s.visitorsInside > 0
       then s' == s.(guides := s.guides[g := Lingering(s.guides[g].served)])
       else exists mid :: && (if s.guidesInside == 1 then Signal(s.guides[g := Left], mid, AtDoor, Arriving)
                              else mid == s.guides[g := Left])
                          && s' == s.(guidesInside := s.guidesInside - 1, guides := All(mid, WakeLingering))
  }

  datatype Thread = Visitor(id: nat) | Guide(id: nat)

  /** Thread `t` takes one step. */
  ghost predicate Step(s: State, s': State, t: Thread) {
    match t
    case Visitor(v) => VisitorArrives(s, s', v) || VisitorResumes(s, s', v) || VisitorLeaves(s, s', v)
    case Guide(g) => GuideEnters(s, s', g) || GuideServes(s, s', g) || GuideLeaves(s, s', g)
  }

  /** A run: its states, and the thread that takes each step. */
  ghost predicate IsRun(states: seq<State>, threads: seq<Thread>) {
    && |states| == |threads| + 1
    && forall i :: 0 <= i < |threads| ==> Step(states[i], states[i + 1], threads[i])
  }

  /** The thread is not asleep and not finished: if it gets the lock it takes a step. */
  predicate Runnable(s: State, t: Thread) {
    match t
    case Visitor(v) => v < |s.visitors| && (s.visitors[v].Outside? || s.visitors[v].Called? || s.visitors[v].Touring?)
    case Guide(g) => g < |s.guides| && (s.guides[g].Arriving? || s.guides[g].Serving? || s.guides[g].Finishing?)
  }

  predicate Finished(s: State) {
    && (forall v :: 0 <= v < |s.visitors| ==> s.visitors[v].Gone?)
    && (forall g :: 0 <= g < |s.guides| ==> s.guides[g].Left?)
  }

  /** A runnable thread always has a step. */
  lemma RunnableSteps(s: State, t: Thread) returns (s': State)
    requires Runnable(s, t)
    ensures Step(s, s', t)
  {
    match t
    case Visitor(v) =>
      if s.visitors[v] == Outside {
        s' := if s.tickets > 0
              then s.(tickets := s.tickets - 1, visitorsWaiting := s.visitorsWaiting + 1,
                      visitors := s.visitors[v := Queued], guides := All(s.guides, WakeIdle))
              else s.(visitors := s.visitors[v := Gone(false)]);
      } else if s.visitors[v] == Called {
        s' := if s.visitorsInside > VISITORS_PER_GUIDE * s.guidesInside
              then s.(visitors := s.visitors[v := Queued], guides := All(s.guides, WakeIdle))
              else s.(visitors := s.visitors[v := Touring]);
      } else {
        s' := s.(visitorsInside := s.visitorsInside - 1, visitors := s.visitors[v := Gone(true)],
                 guides := All(s.guides, WakeLingering));
      }
    case Guide(g) =>
      if s.guides[g] == Arriving {
        s' := if s.guidesInside >= GUIDES_ALLOWED_INSIDE
              then s.(guides := s.guides[g := AtDoor])
              else s.(guidesInside := s.guidesInside + 1, guides := s.guides[g := Serving(0)]);
      } else if s.guides[g].Serving? {
        var served := s.guides[g].served;
        if s.visitorsWaiting > 0 {
          var visitors := SignalSome(s.visitors, Queued, Called);
          s' := s.(visitorsWaiting := s.visitorsWaiting - 1, visitorsInside := s.visitorsInside + 1,
                   visitors := visitors, guides := s.guides[g := AfterServing(served + 1)]);
        } else {
          s' := s.(guides := s.guides[g := if s.tickets <= 0 then Finishing(served) else Idle(served)]);
        }
      } else if s.visitorsInside > 0 {
        s' := s.(guides := s.guides[g := Lingering(s.guides[g].served)]);
      } else {
        var mid := s.guides[g := Left];
        if s.guidesInside == 1 {
          mid := SignalSome(mid, AtDoor, Arriving);
        }
        s' := s.(guidesInside := s.guidesInside - 1, guides := All(mid, WakeLingering));
      }
  }

  lemma SignalSome<T>(before: seq<T>, asleep: T, awake: T) returns (after: seq<T>)
    ensures Signal(before, after, asleep, awake)
  {
    after := before;
    if asleep in before {
      var i :| 0 <= i < |before| && before[i] == asleep;
      after := before[i := awake];
    }
  }
}
