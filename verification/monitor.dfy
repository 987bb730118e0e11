/**
 * One iteration of the `while True` loop in `run` of
 * sawdust_watcher/main.py, as a pure step over the loop's variables and the
 * LED and buzzer outputs.  The camera and the detection call are replaced
 * by the outcome of the scan, the clock by the two readings the iteration
 * takes, and the button by its level.
 */
module Monitor {
  import opened Image

  /** The two `op` settings the loop reads. */
  datatype Config = Config(scanInterval: int, coveragePercent: int)

  /** The loop variables and the two outputs. */
  datatype State = State(alarmActive: bool, timeStart: real, led: bool, buzzer: bool)

  /** What a scan produced: a coverage ratio, or an exception from capture or detection. */
  datatype Scan = Scanned(ratio: Ratio) | ScanFailed

  /**
   * What one iteration observes: the clock read by the interval test, the
   * scan's outcome (consulted only when a scan happens), the button level,
   * and the clock read when the button resets the window.
   */
  datatype Inputs = Inputs(now: real, scan: Scan, pressed: bool, pressTime: real)

  /** After an iteration the loop either goes on or has been ended by an uncaught exception. */
  datatype Next = Continue(state: State) | Crashed

  /** The state before the first iteration: no alarm, window opened at `start`, outputs off. */
  function Init(start: real): State
  {
    State(false, start, false, false)
  }

  /** The guard of the scanning branch. */
  predicate ScanDue(cfg: Config, s: State, now: real)
  {
    !s.alarmActive && now >= s.timeStart + cfg.scanInterval as real
  }

  /**
   * The inclusive comparison of the ratio against the percentage, by
   * cross-multiplication.  A NaN ratio (an empty frame) never compares
   * greater or equal.
   */
  predicate Exceeds(r: Ratio, percent: int)
  {
    !r.IsNaN() && 100 * r.white >= percent * r.total
  }

  /** The scanning branch on its own. */
  function ScanBranch(cfg: Config, s: State, inp: Inputs): Next
  {
    if !ScanDue(cfg, s, inp.now) then Continue(s)
    else match inp.scan
      case ScanFailed => Crashed
      case Scanned(ratio) =>
        if Exceeds(ratio, cfg.coveragePercent) then
          var raised := s.(alarmActive := true, led := true, buzzer := true);
          Continue(raised.(alarmActive := false))  // the line marked as a debugging aid
        else Continue(s)
  }

  /** One loop iteration: the scanning branch, then the button branch. */
  function Step(cfg: Config, s: State, inp: Inputs): (n: Next)
    ensures n.Crashed? <==> ScanDue(cfg, s, inp.now) && inp.scan.ScanFailed?
    ensures n.Continue? ==> n.state.alarmActive == (s.alarmActive && !inp.pressed)
    ensures n.Continue? ==> n.state.timeStart == if inp.pressed then inp.pressTime else s.timeStart
    ensures n.Continue? && inp.pressed ==> !n.state.led && !n.state.buzzer
    ensures n.Continue? && !inp.pressed ==>
      var fired := ScanDue(cfg, s, inp.now) && Exceeds(inp.scan.ratio, cfg.coveragePercent);
      n.state.led == (s.led || fired) && n.state.buzzer == (s.buzzer || fired)
  {
    match ScanBranch(cfg, s, inp)
    case Crashed => Crashed
    case Continue(t) =>
      if inp.pressed then Continue(t.(alarmActive := false, timeStart := inp.pressTime, led := false, buzzer := false))
      else Continue(t)
  }

  /** The loop run over a sequence of iterations, stopping at the first crash. */
  function Run(cfg: Config, s: State, inputs: seq<Inputs>): Next
    decreases |inputs|
  {
    if |inputs| == 0 then Continue(s)
    else match Step(cfg, s, inputs[0])
      case Crashed => Crashed
      case Continue(t) => Run(cfg, t, inputs[1..])
  }

  /** The floating-point comparison that the cross-multiplication replaces. */
  lemma ExceedsIsRealComparison(r: Ratio, percent: int)
    ensures Exceeds(r, percent) <==> !r.IsNaN() && r.Value() >= percent as real / 100.0
  {
    if !r.IsNaN() {
      var w, t, c := r.white as real, r.total as real, percent as real;
      assert r.Value() * t == w;
      assert (100 * r.white) as real == 100.0 * w;
      assert (percent * r.total) as real == c * t;
      if w / t >= c / 100.0 {
        assert w / t * t >= c / 100.0 * t;
      }
      if 100.0 * w >= c * t {
        assert w / t * (100.0 * t) >= c / 100.0 * (100.0 * t);
      }
    }
  }

  /** Whatever the state, a press that the loop reaches clears the alarm, switches both outputs off and restarts the window. */
  lemma PressResets(cfg: Config, s: State, inp: Inputs)
    requires inp.pressed && Step(cfg, s, inp).Continue?
    ensures Step(cfg, s, inp).state == State(false, inp.pressTime, false, false)
  {
  }

  /** Without a press and without a scan over the threshold, nothing changes. */
  lemma QuietIterationChangesNothing(cfg: Config, s: State, inp: Inputs)
    requires !inp.pressed
    requires !(ScanDue(cfg, s, inp.now) && inp.scan.Scanned? && Exceeds(inp.scan.ratio, cfg.coveragePercent))
    requires !(ScanDue(cfg, s, inp.now) && inp.scan.ScanFailed?)
    ensures Step(cfg, s, inp) == Continue(s)
  {
  }

  /**
   * A scan over the threshold switches both outputs on but, because the
   * flag is cleared again straight away, leaves the next iteration still
   * due to scan: the window start has not moved.
   */
  lemma AlarmLeavesScanDue(cfg: Config, s: State, inp: Inputs, later: real)
    requires !inp.pressed && ScanDue(cfg, s, inp.now) && inp.scan.Scanned?
    requires Exceeds(inp.scan.ratio, cfg.coveragePercent)
    requires later >= inp.now
    ensures Step(cfg, s, inp).Continue?
    ensures Step(cfg, s, inp).state.led && Step(cfg, s, inp).state.buzzer
    ensures !Step(cfg, s, inp).state.alarmActive
    ensures ScanDue(cfg, Step(cfg, s, inp).state, later)
  {
  }

  /** Once a scan is due it stays due, iteration after iteration, until the button is pressed. */
  lemma {:induction false} DueUntilPressed(cfg: Config, s: State, inputs: seq<Inputs>, later: real)
    requires forall k :: 0 <= k < |inputs| ==> !inputs[k].pressed
    requires ScanDue(cfg, s, if |inputs| == 0 then later else inputs[0].now)
    requires forall k :: 0 <= k < |inputs| ==> inputs[k].now <= later
    requires forall k :: 0 < k < |inputs| ==> inputs[k - 1].now <= inputs[k].now
    requires Run(cfg, s, inputs).Continue?
    ensures Run(cfg, s, inputs).state.timeStart == s.timeStart
    ensures ScanDue(cfg, Run(cfg, s, inputs).state, later)
    decreases |inputs|
  {
    if |inputs| > 0 {
      var t := Step(cfg, s, inputs[0]).state;
      var rest := inputs[1..];
      assert ScanDue(cfg, t, if |rest| == 0 then later else rest[0].now);
      DueUntilPressed(cfg, t, rest, later);
    }
  }

  /** Once on, the LED and the buzzer stay on until an iteration observes the button. */
  lemma {:induction false} OutputsHeldUntilPressed(cfg: Config, s: State, inputs: seq<Inputs>)
    requires s.led && s.buzzer
    requires forall k :: 0 <= k < |inputs| ==> !inputs[k].pressed
    requires Run(cfg, s, inputs).Continue?
    ensures Run(cfg, s, inputs).state.led && Run(cfg, s, inputs).state.buzzer
    decreases |inputs|
  {
    if |inputs| > 0 {
      OutputsHeldUntilPressed(cfg, Step(cfg, s, inputs[0]).state, inputs[1..]);
    }
  }

  /** The invariant every state of a run from `Init` keeps: the flag is down and the two outputs agree. */
  predicate Reachable(s: State)
  {
    !s.alarmActive && s.led == s.buzzer
  }

  /**
   * As written, the alarm flag is never up when an iteration starts, so the
   * scanning branch is guarded by the clock alone; and the LED and buzzer
   * are always switched together.
   */
  lemma {:induction false} RunKeepsReachable(cfg: Config, s: State, inputs: seq<Inputs>)
    requires Reachable(s)
    requires Run(cfg, s, inputs).Continue?
    ensures Reachable(Run(cfg, s, inputs).state)
    decreases |inputs|
  {
    if |inputs| > 0 {
      RunKeepsReachable(cfg, Step(cfg, s, inputs[0]).state, inputs[1..]);
    }
  }

  /** Every state reached from the initial state has the alarm flag down. */
  lemma AlarmFlagNeverRaised(cfg: Config, start: real, inputs: seq<Inputs>)
    requires Run(cfg, Init(start), inputs).Continue?
    ensures !Run(cfg, Init(start), inputs).state.alarmActive
  {
    RunKeepsReachable(cfg, Init(start), inputs);
  }

  /**
   * A five-second interval and a 5 % threshold: a scan at 10 % coverage
   * five seconds after start switches both outputs on, and they stay on
   * through any later iterations without a press.
   */
  lemma TenPercentRaisesAlarm(later: seq<Inputs>)
    requires forall k :: 0 <= k < |later| ==> !later[k].pressed
    requires Run(Config(5, 5), State(false, 0.0, true, true), later).Continue?
    ensures Step(Config(5, 5), Init(0.0), Inputs(5.0, Scanned(Ratio(1, 10)), false, 5.0))
      == Continue(State(false, 0.0, true, true))
    ensures Run(Config(5, 5), State(false, 0.0, true, true), later).state.led
    ensures Run(Config(5, 5), State(false, 0.0, true, true), later).state.buzzer
  {
    OutputsHeldUntilPressed(Config(5, 5), State(false, 0.0, true, true), later);
  }
}
