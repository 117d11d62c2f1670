/**
 * The stopwatch's timer engine: elapsed time in milliseconds, whether the
 * watch is running, and the lap marks recorded so far.
 *
 * The component keeps these three values as state and changes them from four
 * places: the Start/Stop, Reset and Lap buttons, and a periodic callback that
 * the component arms while the watch runs and that adds 10 ms per call. Here
 * that callback is the explicit method `Tick`, which has an effect only while
 * `running` holds: the callback is armed exactly while the watch runs.
 *
 * `Step` is the transition function over `TimerState` values; the class
 * `Stopwatch` holds the state in fields and each of its methods is proved to
 * perform one `Step`. The lemmas about `Step` and `Run` (a sequence of events)
 * are the properties of the engine.
 */
module StopwatchEngine {

  /** The period of the tick callback, and what each tick adds to the time, in milliseconds. */
  const TickMs: nat := 10

  /** The four inputs of the engine: the three buttons and the tick callback. */
  datatype Event = StartStop | Reset | Lap | Tick

  datatype TimerState = TimerState(time: nat, running: bool, laps: seq<nat>)

  /** The state at mount: no time elapsed, stopped, no laps. */
  function Initial(): TimerState {
    TimerState(0, false, [])
  }

  /** One transition of the engine. */
  function Step(s: TimerState, e: Event): TimerState {
    match e
    case StartStop => s.(running := !s.running)
    case Reset => Initial()
    case Lap => if s.running then s.(laps := s.laps + [s.time]) else s
    case Tick => if s.running then s.(time := s.time + TickMs) else s
  }

  /** The state after the events `es`, taken in order. */
  function Run(s: TimerState, es: seq<Event>): TimerState
    decreases |es|
  {
    if es == [] then s else Run(Step(s, es[0]), es[1..])
  }

  function Ticks(n: nat): (es: seq<Event>)
    ensures |es| == n && forall i :: 0 <= i < n ==> es[i] == Tick
  {
    seq(n, _ => Tick)
  }

  predicate NonDecreasing(xs: seq<nat>) {
    forall i, j :: 0 <= i < j < |xs| ==> xs[i] <= xs[j]
  }

  /**
   * What holds of every state the engine reaches: the laps are in
   * non-decreasing order and none exceeds the elapsed time, and since time
   * only ever grows by whole ticks, it and every lap are multiples of the tick.
   */
  predicate Inv(s: TimerState) {
    && NonDecreasing(s.laps)
    && (forall i :: 0 <= i < |s.laps| ==> s.laps[i] <= s.time && s.laps[i] % TickMs == 0)
    && s.time % TickMs == 0
  }

  lemma InitialSatisfiesInv()
    ensures Inv(Initial())
  {
  }

  lemma StepPreservesInv(s: TimerState, e: Event)
    requires Inv(s)
    ensures Inv(Step(s, e))
  {
  }

  /** Every state reachable from one that satisfies `Inv` satisfies it; in particular every state reachable from `Initial()`. */
  lemma {:induction false} RunPreservesInv(s: TimerState, es: seq<Event>)
    requires Inv(s)
    ensures Inv(Run(s, es))
    decreases |es|
  {
    if es != [] {
      StepPreservesInv(s, es[0]);
      RunPreservesInv(Step(s, es[0]), es[1..]);
    }
  }

  lemma {:induction false} RunConcat(s: TimerState, a: seq<Event>, b: seq<Event>)
    ensures Run(s, a + b) == Run(Run(s, a), b)
    decreases |a|
  {
    if a == [] {
      assert a + b == b;
    } else {
      assert (a + b)[0] == a[0] && (a + b)[1..] == a[1..] + b;
      RunConcat(Step(s, a[0]), a[1..], b);
    }
  }

  /** While running, n ticks add exactly n * 10 ms and change nothing else. */
  lemma {:induction false} TicksWhileRunning(s: TimerState, n: nat)
    requires s.running
    ensures Run(s, Ticks(n)) == s.(time := s.time + TickMs * n)
    decreases n
  {
    if n > 0 {
      assert Ticks(n)[1..] == Ticks(n - 1);
      TicksWhileRunning(Step(s, Tick), n - 1);
    }
  }

  /**
   * While stopped, ticks and lap presses change nothing: the time is frozen
   * and no lap is recorded until the watch is started (or reset).
   */
  lemma {:induction false} StoppedIsFrozen(s: TimerState, es: seq<Event>)
    requires !s.running
    requires forall i :: 0 <= i < |es| ==> es[i] != StartStop && es[i] != Reset
    ensures Run(s, es) == s
    decreases |es|
  {
    if es != [] {
      assert Step(s, es[0]) == s;
      StoppedIsFrozen(s, es[1..]);
    }
  }

  /**
   * Until the next reset, laps are append-only (the earlier laps stay a prefix)
   * and the time never goes backwards.
   */
  lemma {:induction false} LapsAppendOnlyUntilReset(s: TimerState, es: seq<Event>)
    requires forall i :: 0 <= i < |es| ==> es[i] != Reset
    ensures s.laps <= Run(s, es).laps
    ensures s.time <= Run(s, es).time
    decreases |es|
  {
    if es != [] {
      LapsAppendOnlyUntilReset(Step(s, es[0]), es[1..]);
    }
  }

  /** Start and stop with no tick in between leave the whole state, time included, as it was. */
  lemma StartThenStop(s: TimerState)
    ensures Run(s, [StartStop, StartStop]) == s
  {
  }

  /** Start, five ticks, lap, three ticks, lap: the laps are 50 and 80. */
  lemma ExampleSessionLaps()
    ensures Run(Initial(), [StartStop] + Ticks(5) + [Lap] + Ticks(3) + [Lap]).laps == [50, 80]
  {
    var s1 := Step(Initial(), StartStop);
    assert Run(Initial(), [StartStop]) == s1;
    TicksWhileRunning(s1, 5);
    var s2 := Run(s1, Ticks(5));
    var s3 := Step(s2, Lap);
    assert Run(s2, [Lap]) == s3;
    TicksWhileRunning(s3, 3);
    var s4 := Run(s3, Ticks(3));
    assert Run(s4, [Lap]) == Step(s4, Lap);
    RunConcat(Initial(), [StartStop], Ticks(5));
    RunConcat(Initial(), [StartStop] + Ticks(5), [Lap]);
    RunConcat(Initial(), [StartStop] + Ticks(5) + [Lap], Ticks(3));
    RunConcat(Initial(), [StartStop] + Ticks(5) + [Lap] + Ticks(3), [Lap]);
  }

  /** The component's state, updated in place by its handlers and by the tick callback. */
  class Stopwatch {
    var time: nat
    var running: bool
    var laps: seq<nat>

    function State(): TimerState
      reads this
    {
      TimerState(time, running, laps)
    }

    ghost predicate Valid()
      reads this
    {
      Inv(State())
    }

    /** The three `useState` initial values. */
    constructor ()
      ensures time == 0 && !running && laps == []
      ensures State() == Initial() && Valid()
    {
      time, running, laps := 0, false, [];
    }

    /** The Start/Stop button: flips `running` and nothing else. */
    method HandleStartStop()
      modifies this
      ensures running == !old(running)
      ensures time == old(time) && laps == old(laps)
      ensures State() == Step(old(State()), Event.StartStop)
      ensures old(Valid()) ==> Valid()
    {
      running := !running;
    }

    /** The Reset button: whatever the state, back to the initial one. */
    method HandleReset()
      modifies this
      ensures time == 0 && !running && laps == []
      ensures State() == Step(old(State()), Event.Reset) == Initial()
      ensures Valid()
    {
      running := false;
      time := 0;
      laps := [];
    }

    /** The Lap button: while running, appends the current time; while stopped, does nothing. */
    method HandleLap()
      modifies this
      ensures old(running) ==> laps == old(laps) + [old(time)]
      ensures !old(running) ==> laps == old(laps)
      ensures time == old(time) && running == old(running)
      ensures State() == Step(old(State()), Event.Lap)
      ensures old(Valid()) ==> Valid()
    {
      if running {
        laps := laps + [time];
      }
      if old(Valid()) {
        StepPreservesInv(old(State()), Event.Lap);
      }
    }

    /** One call of the interval callback: adds 10 ms while running; stopped, the time is frozen. */
    method Tick()
      modifies this
      ensures time == if old(running) then old(time) + TickMs else old(time)
      ensures running == old(running) && laps == old(laps)
      ensures State() == Step(old(State()), Event.Tick)
      ensures old(Valid()) ==> Valid()
    {
      if running {
        time := time + TickMs;
      }
      if old(Valid()) {
        StepPreservesInv(old(State()), Event.Tick);
      }
    }
  }

  /** The session start, five ticks, lap, three ticks, lap, played on a `Stopwatch`. */
  method ExampleSession() returns (laps: seq<nat>)
    ensures laps == [50, 80]
  {
    var w := new Stopwatch();
    w.HandleStartStop();
    w.Tick(); w.Tick();
    assert w.State() == TimerState(20, true, []);
    w.Tick(); w.Tick(); w.Tick();
    assert w.State() == TimerState(50, true, []);
    w.HandleLap();
    w.Tick(); w.Tick(); w.Tick();
    assert w.State() == TimerState(80, true, [50]);
    w.HandleLap();
    laps := w.laps;
  }
}
