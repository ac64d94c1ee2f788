/** The elapsed-time timer of the issue page (scripts.js:4-50): a count of
    seconds and a running flag, driven by the Start, Pause and Stop buttons
    and by the one-second interval callback that exists only while running. */
module Timer {

  /** The page seeds the counter with 2.5 hours (scripts.js:9). */
  const InitialSeconds: nat := 9000

  datatype TimerState = TimerState(seconds: nat, running: bool)

  datatype TimerEvent = StartClicked | PauseClicked | StopClicked | IntervalTick

  const Initial: TimerState := TimerState(InitialSeconds, false)

  /** The interval callback is installed by Start and cleared by Pause and
      Stop, so a tick can only arrive while the timer runs. */
  predicate Enabled(s: TimerState, e: TimerEvent) {
    e == IntervalTick ==> s.running
  }

  /** One event applied to the timer state. Only a tick moves the counter,
      by exactly one; afterwards the timer runs exactly when the event was a
      Start or a tick. */
  function Step(s: TimerState, e: TimerEvent): (t: TimerState)
    requires Enabled(s, e)
    ensures t.seconds == s.seconds + (if e == IntervalTick then 1 else 0)
    ensures t.running <==> (e == StartClicked || e == IntervalTick)
  {
    match e
    case StartClicked => if s.running then s else TimerState(s.seconds, true)
    case PauseClicked => if s.running then TimerState(s.seconds, false) else s
    case StopClicked => TimerState(s.seconds, false)
    case IntervalTick => TimerState(s.seconds + 1, s.running)
  }

  /** Every event of `events` can occur when it does. */
  predicate Admissible(s: TimerState, events: seq<TimerEvent>)
    decreases |events|
  {
    events == [] || (Enabled(s, events[0]) && Admissible(Step(s, events[0]), events[1..]))
  }

  function Run(s: TimerState, events: seq<TimerEvent>): TimerState
    requires Admissible(s, events)
    decreases |events|
  {
    if events == [] then s else Run(Step(s, events[0]), events[1..])
  }

  function Ticks(events: seq<TimerEvent>): nat {
    if events == [] then 0 else (if events[0] == IntervalTick then 1 else 0) + Ticks(events[1..])
  }

  /** The counter only ever moves by ticks: after any run it has grown by
      exactly the number of ticks, so Start, Pause and Stop never change or
      reset it. */
  lemma {:induction false} RunSeconds(s: TimerState, events: seq<TimerEvent>)
    requires Admissible(s, events)
    ensures Run(s, events).seconds == s.seconds + Ticks(events)
    decreases |events|
  {
    if events != [] {
      RunSeconds(Step(s, events[0]), events[1..]);
    }
  }

  /** After a non-empty run the timer is running exactly when the last event
      was a Start or a tick; with no events the state is untouched. */
  lemma {:induction false} RunRunning(s: TimerState, events: seq<TimerEvent>)
    requires Admissible(s, events)
    ensures events == [] ==> Run(s, events) == s
    ensures events != [] ==>
      (Run(s, events).running <==> events[|events| - 1] in {StartClicked, IntervalTick})
    decreases |events|
  {
    if |events| > 1 {
      RunRunning(Step(s, events[0]), events[1..]);
    }
  }

  /** Running `a` and then `b` is running `a + b`. */
  lemma {:induction false} RunAppend(s: TimerState, a: seq<TimerEvent>, b: seq<TimerEvent>)
    requires Admissible(s, a) && Admissible(Run(s, a), b)
    ensures Admissible(s, a + b) && Run(s, a + b) == Run(Run(s, a), b)
    decreases |a|
  {
    if a == [] {
      assert a + b == b;
    } else {
      assert (a + b)[1..] == a[1..] + b;
      RunAppend(Step(s, a[0]), a[1..], b);
    }
  }

  function TickRun(n: nat): (r: seq<TimerEvent>)
    ensures |r| == n && forall i :: 0 <= i < n ==> r[i] == IntervalTick
  {
    seq(n, _ => IntervalTick)
  }

  /** A running timer accepts any number of ticks and counts each of them. */
  lemma {:induction false} TicksWhileRunning(s: TimerState, n: nat)
    requires s.running
    ensures Admissible(s, TickRun(n))
    ensures Run(s, TickRun(n)) == TimerState(s.seconds + n, true)
    decreases n
  {
    if n > 0 {
      assert TickRun(n)[1..] == TickRun(n - 1);
      TicksWhileRunning(Step(s, IntervalTick), n - 1);
    }
  }

  /** Stop followed by Start, in any state, keeps the count and leaves the
      timer running: Stop is accepted whether or not the timer runs. */
  lemma StopThenStart(s: TimerState)
    ensures Admissible(s, [StopClicked, StartClicked])
    ensures Run(s, [StopClicked, StartClicked]) == TimerState(s.seconds, true)
  {
    var pair := [StopClicked, StartClicked];
    assert pair[1..] == [StartClicked] && pair[1..][1..] == [];
  }

  /** From a running timer, any number of ticks and then Stop followed by
      Start resume from the value held at Stop: the pair leaves the counter
      where the ticks brought it and the timer running. */
  lemma StopThenStartResumes(s: TimerState, n: nat)
    requires s.running
    ensures Admissible(s, TickRun(n) + [StopClicked, StartClicked])
    ensures Run(s, TickRun(n) + [StopClicked, StartClicked]) == TimerState(s.seconds + n, true)
  {
    TicksWhileRunning(s, n);
    StopThenStart(Run(s, TickRun(n)));
    RunAppend(s, TickRun(n), [StopClicked, StartClicked]);
  }

  /** The timer as the page holds it: the closure variables `timerSeconds`
      and `isTimerRunning`. The interval handle `timerInterval` is not a
      separate field: an interval exists exactly while `running` holds. */
  class ElapsedTimer {
    var seconds: nat
    var running: bool

    function State(): TimerState
      reads this
    {
      TimerState(seconds, running)
    }

    constructor ()
      ensures State() == Initial
      ensures seconds == 9000 && !running
    {
      seconds := InitialSeconds;
      running := false;
    }

    /** Start: starts the interval unless it already runs (scripts.js:13-27). */
    method Start()
      modifies this
      ensures State() == Step(old(State()), StartClicked)
      ensures running && seconds == old(seconds)
    {
      if !running {
        running := true;
      }
    }

    /** Pause: stops the interval if it runs (scripts.js:30-39). */
    method Pause()
      modifies this
      ensures State() == Step(old(State()), PauseClicked)
      ensures !running && seconds == old(seconds)
    {
      if running {
        running := false;
      }
    }

    /** Stop: stops the interval whatever the state, keeping the count
        (scripts.js:42-50). */
    method Stop()
      modifies this
      ensures State() == Step(old(State()), StopClicked)
      ensures !running && seconds == old(seconds)
    {
      running := false;
    }

    /** The interval callback `timerSeconds++` (scripts.js:20-23). */
    method Tick()
      requires running
      modifies this
      ensures State() == Step(old(State()), IntervalTick)
      ensures running && seconds == old(seconds) + 1
    {
      seconds := seconds + 1;
    }
  }

  /** A client of the class: from a fresh timer, Start, three ticks, Stop and
      Start again leave the counter at 9003 and the timer running. */
  method StartStopResume() returns (t: ElapsedTimer)
    ensures t.State() == TimerState(InitialSeconds + 3, true)
  {
    t := new ElapsedTimer();
    t.Start();
    t.Tick();
    t.Tick();
    t.Tick();
    t.Stop();
    t.Start();
  }
}
