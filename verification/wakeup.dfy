/** Submitting tasks to the loop from other threads: a bounded queue, an eventfd, and the order in which both are read. */
module Wakeups {

  const QUEUE_LIMIT: nat := 1024

  type Thread = nat

  type Task = nat

  /** Whether the wakeup callback clears the eventfd before it drains the queue, as the source does, or after. */
  datatype Order = ClearFirst | DrainFirst

  /** Where the loop's thread is: with no wakeup to handle, with one collected but not yet cleared, or popping. */
  datatype Loop = Parked | AboutToClear | Draining

  /**
   * `between` are the threads that have pushed but not yet signalled; `accepted` is a record of all pushes taken;
   * `watched` says that the kernel watches the eventfd.
   */
  datatype State = State(
    queue: seq<Task>, signalled: bool, between: set<Thread>, loop: Loop, executed: seq<Task>, accepted: seq<Task>,
    watched: bool)

  /** Atomic steps; a step that is not possible in a state leaves it unchanged. */
  datatype Event = Push(thread: Thread, task: Task) | Signal(thread: Thread) | Wake | Clear | Pop | Finish | UnwatchAll

  const INIT := State([], false, {}, Parked, [], [], true)

  function Step(s: State, e: Event, order: Order): State {
    match e
    case Push(t, task) =>
      if t in s.between || |s.queue| >= QUEUE_LIMIT then s
      else s.(queue := s.queue + [task], between := s.between + {t}, accepted := s.accepted + [task])
    case Signal(t) =>
      if t in s.between then s.(between := s.between - {t}, signalled := true) else s
    case Wake =>
      if !(s.loop.Parked? && s.signalled && s.watched) then s
      else s.(loop := if order.ClearFirst? then AboutToClear else Draining)
    case Clear =>
      if s.loop.AboutToClear? then s.(signalled := false, loop := if order.ClearFirst? then Draining else Parked) else s
    case Pop =>
      if s.loop.Draining? && s.queue != [] then s.(queue := s.queue[1..], executed := s.executed + [s.queue[0]]) else s
    case Finish =>
      if s.loop.Draining? && s.queue == [] then s.(loop := if order.ClearFirst? then Parked else AboutToClear) else s
    case UnwatchAll => s.(watched := false)
  }

  function Run(s: State, events: seq<Event>, order: Order): State
    decreases |events|
  {
    if events == [] then s else Run(Step(s, events[0], order), events[1..], order)
  }

  lemma {:induction false} RunAppend(s: State, a: seq<Event>, b: seq<Event>, order: Order)
    ensures Run(s, a + b, order) == Run(Run(s, a, order), b, order)
    decreases |a|
  {
    if a == [] {
      assert a + b == b;
    } else {
      assert (a + b)[0] == a[0] && (a + b)[1..] == a[1..] + b;
      RunAppend(Step(s, a[0], order), a[1..], b, order);
    }
  }

  /** A task waits, and nothing already under way will wake the loop for it. */
  predicate Lost(s: State) {
    s.queue != [] && !(s.signalled && s.watched) && s.between == {} && s.loop.Parked?
  }

  /** No run that leaves the eventfd watched loses a wakeup. */
  ghost predicate NeverLost(order: Order) {
    forall events :: UnwatchAll !in events ==> !Lost(Run(INIT, events, order))
  }

  /** Executed tasks, then queued ones, are the accepted pushes in order; and no wakeup is lost. */
  ghost predicate Inv(s: State) {
    && s.executed + s.queue == s.accepted
    && |s.queue| <= QUEUE_LIMIT
    && (s.queue != [] ==> s.signalled || s.between != {} || !s.loop.Parked?)
    && (s.loop.AboutToClear? ==> s.signalled)
  }

  lemma InvStep(s: State, e: Event)
    requires Inv(s)
    ensures Inv(Step(s, e, ClearFirst))
  {
  }

  lemma {:induction false} InvRun(s: State, events: seq<Event>)
    requires Inv(s)
    ensures Inv(Run(s, events, ClearFirst))
    decreases |events|
  {
    if events != [] {
      InvStep(s, events[0]);
      InvRun(Step(s, events[0], ClearFirst), events[1..]);
    }
  }

  lemma {:induction false} WatchedIff(s: State, events: seq<Event>, order: Order)
    ensures Run(s, events, order).watched <==> s.watched && UnwatchAll !in events
    decreases |events|
  {
    if events != [] {
      WatchedIff(Step(s, events[0], order), events[1..], order);
      assert events == [events[0]] + events[1..];
    }
  }

  /** A schedule that loses a task if the callback drains before it clears. */
  function Race(): seq<Event> {
    [Push(0, 7), Signal(0), Wake] + [Pop, Finish, Push(1, 8)] + [Signal(1), Clear]
  }

  lemma RaceLosesTask()
    ensures Lost(Run(INIT, Race(), DrainFirst))
  {
  }

  /**
   * No lost wakeup: for any number of threads and any interleaving with the loop, a task is never left waiting with
   * the loop parked and no signal on its way, as long as the eventfd is watched. This is so exactly because the
   * eventfd is cleared before draining.
   */
  lemma NoLostWakeup(order: Order)
    ensures NeverLost(order) <==> order == ClearFirst
  {
    if order == ClearFirst {
      forall events | UnwatchAll !in events
        ensures !Lost(Run(INIT, events, order))
      {
        InvRun(INIT, events);
        WatchedIff(INIT, events, order);
      }
    } else {
      RaceLosesTask();
    }
  }

  /** So tasks that wait with the loop parked and every submitter done are lost exactly after an `unwatchAll`. */
  lemma LostIffUnwatched(events: seq<Event>)
    requires var s := Run(INIT, events, ClearFirst); s.queue != [] && s.between == {} && s.loop.Parked?
    ensures Lost(Run(INIT, events, ClearFirst)) <==> UnwatchAll in events
  {
    InvRun(INIT, events);
    WatchedIff(INIT, events, ClearFirst);
  }

  /** Tasks run in the order their pushes were accepted, each once, and the others are still queued. */
  lemma ExecutedThenQueued(events: seq<Event>)
    ensures var s := Run(INIT, events, ClearFirst);
            s.executed + s.queue == s.accepted && |s.queue| <= 1024
  {
    InvRun(INIT, events);
  }

  /** The pushes of a run that find room, by threads that are not between push and signal. */
  function Pushes(s: State, events: seq<Event>, order: Order): seq<Task>
    decreases |events|
  {
    if events == [] then []
    else
      var e := events[0];
      (if e.Push? && e.thread !in s.between && |s.queue| < 1024 then [e.task] else []) +
      Pushes(Step(s, e, order), events[1..], order)
  }

  /** No other push is refused, and none is made up. */
  lemma {:induction false} AcceptedArePushes(s: State, events: seq<Event>, order: Order)
    ensures Run(s, events, order).accepted == s.accepted + Pushes(s, events, order)
    decreases |events|
  {
    if events != [] {
      AcceptedArePushes(Step(s, events[0], order), events[1..], order);
    }
  }

  // ---------- what the loop alone can always finish ----------

  function Pops(n: nat): seq<Event> {
    if n == 0 then [] else [Pop] + Pops(n - 1)
  }

  /** The loop's own steps from here to an empty queue. */
  function Finishing(s: State): seq<Event> {
    [Wake, Clear] + Pops(|s.queue|)
  }

  lemma {:induction false} PopsDrain(s: State)
    requires Inv(s) && s.loop.Draining?
    ensures var f := Run(s, Pops(|s.queue|), ClearFirst);
            f.queue == [] && f.executed == s.accepted
    decreases |s.queue|
  {
    if s.queue == [] {
      assert s.executed + s.queue == s.executed;
    } else {
      InvStep(s, Pop);
      assert Pops(|s.queue|)[1..] == Pops(|s.queue| - 1);
      PopsDrain(Step(s, Pop, ClearFirst));
    }
  }

  /** With the eventfd unwatched and the loop parked no task ever runs again, whatever happens. */
  lemma {:induction false} NothingRuns(s: State, events: seq<Event>)
    requires !s.watched && s.loop.Parked?
    ensures Run(s, events, ClearFirst).executed == s.executed
    decreases |events|
  {
    if events != [] {
      NothingRuns(Step(s, events[0], ClearFirst), events[1..]);
    }
  }

  lemma FinishesFrom(s: State)
    requires Inv(s) && s.between == {} && (s.watched || !s.loop.Parked? || s.queue == [])
    ensures Run(s, Finishing(s), ClearFirst).executed == s.accepted
  {
    var w := Step(s, Wake, ClearFirst);
    var c := Step(w, Clear, ClearFirst);
    InvStep(s, Wake);
    InvStep(w, Clear);
    var pops := Pops(|s.queue|);
    assert Finishing(s)[1..] == [Clear] + pops && ([Clear] + pops)[1..] == pops;
    assert Run(s, Finishing(s), ClearFirst) == Run(w, [Clear] + pops, ClearFirst) == Run(c, pops, ClearFirst);
    if s.queue == [] {
      assert s.executed + s.queue == s.executed;
    } else {
      PopsDrain(c);
    }
  }

  /**
   * Once every submitter has signalled, the loop's own steps can execute every accepted task exactly if there has been
   * no `unwatchAll`, or the loop is already handling a wakeup, or nothing is left to do.
   */
  lemma LoopFinishesIff(events: seq<Event>)
    requires Run(INIT, events, ClearFirst).between == {}
    ensures var s := Run(INIT, events, ClearFirst);
            (exists more :: Run(s, more, ClearFirst).executed == s.accepted) <==>
            UnwatchAll !in events || !s.loop.Parked? || s.queue == []
  {
    var s := Run(INIT, events, ClearFirst);
    InvRun(INIT, events);
    WatchedIff(INIT, events, ClearFirst);
    if s.watched || !s.loop.Parked? || s.queue == [] {
      FinishesFrom(s);
    } else {
      assert |s.accepted| == |s.executed| + |s.queue|;
      forall more
        ensures Run(s, more, ClearFirst).executed != s.accepted
      {
        NothingRuns(s, more);
      }
    }
  }

  /** A task submitted after an `unwatchAll` never runs. */
  lemma TaskAfterUnwatchAllIsLost(more: seq<Event>)
    ensures Run(INIT, [UnwatchAll, Push(0, 7), Signal(0)] + more, ClearFirst).executed == []
  {
    var s := State([7], true, {}, Parked, [], [7], false);
    assert Run(INIT, [UnwatchAll, Push(0, 7), Signal(0)], ClearFirst) == s by {
      assert [UnwatchAll, Push(0, 7), Signal(0)][1..] == [Push(0, 7), Signal(0)];
      assert [Push(0, 7), Signal(0)][1..] == [Signal(0)];
    }
    RunAppend(INIT, [UnwatchAll, Push(0, 7), Signal(0)], more, ClearFirst);
    NothingRuns(s, more);
  }
}
