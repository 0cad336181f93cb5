/** When a timer fires: what the processed commands of rhs_timer_start, rhs_timer_restart and
    rhs_timer_stop mean for its callback, over whole runs. */
module TimerFirings {
  import opened TimerTeardown
  import opened Wrappers
  import Runs

  /** The daemon processes a command that starts the timer. */
  predicate Starts(s: State, step: Step, a: Addr) {
    step.Process? && s.queue != [] && (s.queue[0] == ChangePeriod(a) || s.queue[0] == Reset(a))
  }

  /** The daemon processes a command that stops it. */
  predicate Stops(s: State, step: Step, a: Addr) {
    step.Process? && s.queue != [] && (s.queue[0] == Halt(a) || s.queue[0] == Delete(a))
  }

  /** The daemon enters the timer's callback. */
  predicate Fires(s: State, step: Step, a: Addr)
    requires Enabled(s, step)
  {
    s.daemon != Callback(a) && Apply(s, step).daemon == Callback(a)
  }

  predicate Active(s: State, a: Addr) {
    a in s.timers && s.timers[a].active
  }

  predicate Periodic(s: State, a: Addr) {
    a in s.timers && s.timers[a].periodic
  }

  function Starting(s: State, steps: seq<Step>, a: Addr): nat
    decreases |steps|
  {
    if steps == [] || !Enabled(s, steps[0]) then 0
    else (if Starts(s, steps[0], a) then 1 else 0) + Starting(Apply(s, steps[0]), steps[1..], a)
  }

  function Stopping(s: State, steps: seq<Step>, a: Addr): nat
    decreases |steps|
  {
    if steps == [] || !Enabled(s, steps[0]) then 0
    else (if Stops(s, steps[0], a) then 1 else 0) + Stopping(Apply(s, steps[0]), steps[1..], a)
  }

  function Firing(s: State, steps: seq<Step>, a: Addr): nat
    decreases |steps|
  {
    if steps == [] || !Enabled(s, steps[0]) then 0
    else (if Fires(s, steps[0], a) then 1 else 0) + Firing(Apply(s, steps[0]), steps[1..], a)
  }

  /** Only an active timer or one being started fires; then a one-shot timer is active no more, and a
      periodic one is. Otherwise it is active after a start, not after a stop, and else as before. */
  lemma ActiveAfter(s: State, step: Step, a: Addr)
    requires Enabled(s, step) && a in s.timers && step != Release(a)
    ensures var s' := Apply(s, step);
            && a in s'.timers && Periodic(s', a) == Periodic(s, a)
            && (Fires(s, step, a) ==> (Active(s, a) || Starts(s, step, a)) && !Stops(s, step, a))
            && (Active(s', a) <==>
                  if Fires(s, step, a) then Periodic(s, a)
                  else Starts(s, step, a) || (Active(s, a) && !Stops(s, step, a)))
  {
  }

  lemma NewTimer(s: State, step: Step, a: Addr)
    requires Enabled(s, step) && (a !in s.timers || step == Release(a))
    ensures !Fires(s, step, a) && !Active(Apply(s, step), a) && !Starts(s, step, a)
    ensures Periodic(Apply(s, step), a) ==> step == Alloc(a, true)
  {
  }

  lemma FirstStep(s: State, steps: seq<Step>, end: State, a: Addr)
    requires steps != [] && Runs.Run(Next, s, steps, end)
    ensures Enabled(s, steps[0])
    ensures Runs.Run(Next, Apply(s, steps[0]), steps[1..], end)
    ensures Starting(s, steps, a) ==
              (if Starts(s, steps[0], a) then 1 else 0) + Starting(Apply(s, steps[0]), steps[1..], a)
    ensures Stopping(s, steps, a) ==
              (if Stops(s, steps[0], a) then 1 else 0) + Stopping(Apply(s, steps[0]), steps[1..], a)
    ensures Firing(s, steps, a) ==
              (if Fires(s, steps[0], a) then 1 else 0) + Firing(Apply(s, steps[0]), steps[1..], a)
  {
    hide Apply, Enabled, Starts, Stops, Fires;
  }

  /** A timer that is not active does not fire before the daemon has processed a start of it. */
  lemma {:induction false} SilentUntilStarted(s: State, steps: seq<Step>, end: State, a: Addr)
    requires Runs.Run(Next, s, steps, end) && !Active(s, a) && Starting(s, steps, a) == 0
    ensures Firing(s, steps, a) == 0 && !Active(end, a)
    decreases |steps|
  {
    if steps != [] {
      hide Apply, Enabled, Fires, Starts, Stops, Active, Firing, Starting;
      var step := steps[0];
      FirstStep(s, steps, end, a);
      if a in s.timers && step != Release(a) {
        ActiveAfter(s, step, a);
      } else {
        NewTimer(s, step, a);
      }
      SilentUntilStarted(Apply(s, step), steps[1..], end, a);
    }
  }

  /** So a processed stop, or the delete of a free call, silences it until the next start. */
  lemma StopSilences(s: State, stop: Step, steps: seq<Step>, end: State, a: Addr)
    requires Enabled(s, stop) && Stops(s, stop, a)
    requires Runs.Run(Next, Apply(s, stop), steps, end) && Starting(Apply(s, stop), steps, a) == 0
    ensures !Fires(s, stop, a) && Firing(Apply(s, stop), steps, a) == 0 && !Active(end, a)
  {
    StopStops(s, stop, a);
    hide Apply, Enabled, Fires, Starts, Stops, Active, Firing, Starting;
    SilentUntilStarted(Apply(s, stop), steps, end, a);
  }

  lemma StopStops(s: State, stop: Step, a: Addr)
    requires Enabled(s, stop) && Stops(s, stop, a)
    ensures !Fires(s, stop, a) && !Active(Apply(s, stop), a)
  {
  }

  /** A timer that is periodic goes on, however often it fires, until it is stopped or freed. */
  lemma {:induction false} PeriodicGoesOn(s: State, steps: seq<Step>, end: State, a: Addr)
    requires Runs.Run(Next, s, steps, end) && Periodic(s, a) && Active(s, a)
    requires Stopping(s, steps, a) == 0 && Release(a) !in steps
    ensures Periodic(end, a) && Active(end, a)
    decreases |steps|
  {
    if steps != [] {
      var step := steps[0];
      FirstStep(s, steps, end, a);
      ActiveAfter(s, step, a);
      hide Apply, Enabled, Fires, Starts, Stops, Stopping;
      PeriodicGoesOn(Apply(s, step), steps[1..], end, a);
    }
  }

  /** A one-shot timer fires at most once for each start the daemon processes, and once more only if
      it was active before; it is still active only if one of them has not fired. */
  lemma {:induction false} OneShotFiresOnce(s: State, steps: seq<Step>, end: State, a: Addr)
    requires Runs.Run(Next, s, steps, end) && !Periodic(s, a) && Alloc(a, true) !in steps
    ensures Firing(s, steps, a) + (if Active(end, a) then 1 else 0)
         <= Starting(s, steps, a) + (if Active(s, a) then 1 else 0)
    ensures !Periodic(end, a)
    decreases |steps|
  {
    if steps != [] {
      hide Apply, Enabled, Fires, Starts, Stops, Active, Periodic, Firing, Starting;
      var step := steps[0];
      FirstStep(s, steps, end, a);
      if a in s.timers && step != Release(a) {
        ActiveAfter(s, step, a);
      } else {
        NewTimer(s, step, a);
      }
      OneShotFiresOnce(Apply(s, step), steps[1..], end, a);
    }
  }

  /** And an active one-shot timer that is neither stopped nor freed either fires or stays active. */
  lemma {:induction false} OneShotFires(s: State, steps: seq<Step>, end: State, a: Addr)
    requires Runs.Run(Next, s, steps, end) && Active(s, a) && Stopping(s, steps, a) == 0 && Release(a) !in steps
    ensures Firing(s, steps, a) > 0 || Active(end, a)
    decreases |steps|
  {
    if steps != [] {
      var step := steps[0];
      FirstStep(s, steps, end, a);
      ActiveAfter(s, step, a);
      hide Apply, Enabled, Fires, Starts, Stops, Stopping, Firing;
      if Active(Apply(s, step), a) {
        OneShotFires(Apply(s, step), steps[1..], end, a);
      }
    }
  }
}
