/**
 * One timer of src/app.rs: its fields, `start`, `reset`, `Default`, and
 * what one frame of `TemplateApp::update` does to it.
 */
module Timers {
  import opened Outcomes
  import opened Decimal
  import opened Countdown
  import opened Panics

  /** The value of a timer's fields; `startedMs == None` means idle, `Some` running. */
  datatype TimerState = TimerState(
    labelText: string,
    hours: string,
    minutes: string,
    seconds: string,
    startedMs: Option<uint64>,
    autoRestart: bool)

  /** `Timer::default()`. */
  const DefaultState: TimerState := TimerState("", "0", "0", "0", None, false)

  /** A running timer can be evaluated without u32 overflow. */
  predicate Evaluable(t: TimerState) {
    t.startedMs.Some? ==> TargetFits(t.hours, t.minutes, t.seconds)
  }

  /** The buttons of one timer's row that were clicked in a frame. */
  datatype Clicks = Clicks(start: bool, reset: bool, remove: bool)

  /**
   * What a timer's row shows in a frame: the H:M:S text fields of an idle
   * timer, or the countdown label of a running one (`timeUp`: red
   * "00:00:00" and a beep).
   */
  datatype Row = Editing | Showing(text: string, timeUp: bool)

  /**
   * One frame for one timer. An idle timer shows its text fields and starts
   * if Start is clicked. A running timer is evaluated (which may panic);
   * when its time is up it shows red zeros, beeps, and restarts at `now` if
   * auto-restart is set; otherwise it shows the remaining time. A Reset
   * click then makes it idle.
   */
  function Tick(t: TimerState, now: uint64, c: Clicks): (r: Result<(TimerState, Row), Panic>)
    requires Evaluable(t)
  {
    match t.startedMs
    case None => Ok((if c.start then t.(startedMs := Some(now)) else t, Editing))
    case Some(s) =>
      match Evaluate(t.hours, t.minutes, t.seconds, s, now)
      case Err(e) => Err(e)
      case Ok(reading) =>
        var rearmed := if reading.TimeUp? && t.autoRestart then t.(startedMs := Some(now)) else t;
        var row := if reading.TimeUp? then Showing(TimeUpText, true) else Showing(RemainingText(reading.restMs), false);
        Ok((if c.reset then rearmed.(startedMs := None) else rearmed, row))
  }

  /**
   * A frame changes nothing in a timer but its start stamp; an idle timer
   * never panics and shows its text fields, a running one shows a label.
   */
  lemma TickChangesOnlyStart(t: TimerState, now: uint64, c: Clicks)
    requires Evaluable(t)
    ensures var r := Tick(t, now, c);
      && (r.Ok? ==> r.value.0 == t.(startedMs := r.value.0.startedMs))
      && (t.startedMs.None? ==> r.Ok? && r.value.1 == Editing)
      && (t.startedMs.Some? && r.Ok? ==> r.value.1.Showing?)
  {
  }

  /** A timer, whose fields the frame loop and the buttons update in place. */
  class Timer {
    var labelText: string
    var hours: string
    var minutes: string
    var seconds: string
    var startedMs: Option<uint64>
    var autoRestart: bool

    function State(): TimerState
      reads this
    {
      TimerState(labelText, hours, minutes, seconds, startedMs, autoRestart)
    }

    /** `Timer::default()`: idle, empty label, all three fields "0", no auto-restart. */
    constructor Default()
      ensures State() == DefaultState
      ensures State().startedMs.None? && labelText == "" && hours == minutes == seconds == "0" && !autoRestart
    {
      labelText := "";
      hours := "0";
      minutes := "0";
      seconds := "0";
      startedMs := None;
      autoRestart := false;
    }

    /** `start`: stamps the clock reading `now`; nothing else changes. */
    method Start(now: uint64)
      modifies this
      ensures State() == old(State()).(startedMs := Some(now))
    {
      startedMs := Some(now);
    }

    /** `reset`: makes the timer idle; nothing else changes. */
    method Reset()
      modifies this
      ensures State() == old(State()).(startedMs := None)
    {
      startedMs := None;
    }
  }

  /** Resetting twice leaves the timer as resetting once does. */
  method ResetTwice(timer: Timer)
    modifies timer
    ensures timer.State() == old(timer.State()).(startedMs := None)
  {
    timer.Reset();
    ghost var once := timer.State();
    timer.Reset();
    assert timer.State() == once;
  }

  /**
   * The body of the frame loop for one timer: the state change and the row
   * are those of `Tick`; on a panic the timer is left as it was.
   */
  method TickTimer(timer: Timer, now: uint64, c: Clicks) returns (r: Result<Row, Panic>)
    requires Evaluable(timer.State())
    modifies timer
    ensures var spec := Tick(old(timer.State()), now, c);
      && (r.Err? <==> spec.Err?)
      && (r.Err? ==> r.error == spec.error && timer.State() == old(timer.State()))
      && (r.Ok? ==> r.value == spec.value.1 && timer.State() == spec.value.0)
  {
    if timer.startedMs.Some? {
      var reading := Evaluate(timer.hours, timer.minutes, timer.seconds, timer.startedMs.value, now);
      if reading.Err? {
        return Err(reading.error);
      }
      if reading.value.TimeUp? {
        r := Ok(Showing(TimeUpText, true));
        if timer.autoRestart {
          timer.Start(now);
        }
      } else {
        r := Ok(Showing(RemainingText(reading.value.restMs), false));
      }
      if c.reset {
        timer.Reset();
      }
    } else {
      r := Ok(Editing);
      if c.start {
        timer.Start(now);
      }
    }
  }

  /**
   * Clicking Start on an idle timer: this frame still shows the text fields
   * and stamps `now`; the next frame, at any instant `later >= now` and
   * without Reset, shows red zeros exactly when the target has elapsed
   * since that click.
   */
  lemma StartFromIdle(t: TimerState, now: uint64, later: uint64, c: Clicks, c': Clicks)
    requires t.startedMs.None? && c.start && !c'.reset && now <= later
    requires TargetFits(t.hours, t.minutes, t.seconds) && TargetSeconds(t.hours, t.minutes, t.seconds).Ok?
    ensures var started := t.(startedMs := Some(now));
      var target := TargetSeconds(t.hours, t.minutes, t.seconds).value;
      && Tick(t, now, c) == Ok((started, Editing))
      && Evaluable(started)
      && Tick(started, later, c').Ok?
      && Tick(started, later, c').value.1.Showing?
      && (Tick(started, later, c').value.1.timeUp <==> target * 1000 <= later - now)
  {
    var started := t.(startedMs := Some(now));
    assert Evaluate(t.hours, t.minutes, t.seconds, now, later).Ok?;
  }

  /**
   * Right after a start, the countdown shows the whole target: `target`
   * seconds remain, or time is up at once for a zero target.
   */
  lemma FreshStartShowsTarget(t: TimerState, now: uint64)
    requires t.startedMs == Some(now) && Evaluable(t)
    requires TargetSeconds(t.hours, t.minutes, t.seconds).Ok?
    ensures var target := TargetSeconds(t.hours, t.minutes, t.seconds).value;
      Evaluate(t.hours, t.minutes, t.seconds, now, now) ==
        if target == 0 then Ok(TimeUp) else Ok(Left(target * 1000))
  {
  }

  /**
   * Auto-restart: a timer whose time is up and whose auto-restart is set is
   * re-armed at `now`, so at that same instant it is not up again (for a
   * non-zero target) and shows its whole target.
   */
  lemma AutoRestartRearms(t: TimerState, now: uint64, c: Clicks)
    requires t.startedMs.Some? && Evaluable(t) && t.autoRestart && !c.reset
    requires Evaluate(t.hours, t.minutes, t.seconds, t.startedMs.value, now) == Ok(TimeUp)
    ensures Tick(t, now, c) == Ok((t.(startedMs := Some(now)), Showing(TimeUpText, true)))
    ensures var target := TargetSeconds(t.hours, t.minutes, t.seconds).value;
      target > 0 ==> Evaluate(t.hours, t.minutes, t.seconds, now, now) == Ok(Left(target * 1000))
  {
  }

  /**
   * Without auto-restart a timer whose time is up keeps its start stamp,
   * and at every later instant it is still up: it shows red zeros (and
   * beeps) in every following frame until it is reset.
   */
  lemma ExpiredStaysExpired(t: TimerState, now: uint64, later: uint64, c: Clicks, c': Clicks)
    requires t.startedMs.Some? && Evaluable(t) && !t.autoRestart && !c.reset && !c'.reset
    requires Evaluate(t.hours, t.minutes, t.seconds, t.startedMs.value, now) == Ok(TimeUp)
    requires now <= later
    ensures Tick(t, now, c) == Ok((t, Showing(TimeUpText, true)))
    ensures Tick(t, later, c') == Ok((t, Showing(TimeUpText, true)))
  {
    var s := t.startedMs.value;
    assert ElapsedMs(s, later) == Ok(later - s);
    assert TargetSeconds(t.hours, t.minutes, t.seconds).value * 1000 <= now - s <= later - s;
  }

  /** A default timer (all fields "0") that is started is up at once, and without auto-restart stays up. */
  lemma DefaultTimerIsUpAtOnce(now: uint64, c: Clicks)
    requires !c.reset
    ensures var started := DefaultState.(startedMs := Some(now));
      Evaluable(started) && Tick(started, now, c) == Ok((started, Showing(TimeUpText, true)))
  {
    assert ParseU32("0") == Ok(0);
  }

  /** A Reset click makes a running timer idle, whether or not its time is up. */
  lemma ResetMakesIdle(t: TimerState, now: uint64, c: Clicks)
    requires t.startedMs.Some? && Evaluable(t) && c.reset
    requires Tick(t, now, c).Ok?
    ensures Tick(t, now, c).value.0 == t.(startedMs := None)
  {
  }

  /**
   * A running timer that is not up shows a label whose three fields are
   * digits and read back as h, m and s, minutes and seconds below 60, with
   * h*3600 + m*60 + s the whole seconds left of the target.
   */
  lemma RunningShowsRemaining(t: TimerState, now: uint64, c: Clicks)
    requires t.startedMs.Some? && Evaluable(t)
    requires Evaluate(t.hours, t.minutes, t.seconds, t.startedMs.value, now).Ok?
    requires Evaluate(t.hours, t.minutes, t.seconds, t.startedMs.value, now).value.Left?
    ensures Tick(t, now, c).Ok? && Tick(t, now, c).value.1.Showing? && !Tick(t, now, c).value.1.timeUp
    ensures var text := Tick(t, now, c).value.1.text;
      var target := TargetSeconds(t.hours, t.minutes, t.seconds).value;
      && |text| >= 8 && text[|text| - 6] == ':' && text[|text| - 3] == ':'
      && AllDigits(text[..|text| - 6]) && AllDigits(text[|text| - 5..|text| - 3]) && AllDigits(text[|text| - 2..])
      && ParseU32(text[..|text| - 6]).Ok?
      && ParseU32(text[|text| - 5..|text| - 3]).Ok? && ParseU32(text[|text| - 5..|text| - 3]).value < 60
      && ParseU32(text[|text| - 2..]).Ok? && ParseU32(text[|text| - 2..]).value < 60
      && ParseU32(text[..|text| - 6]).value * 3600
           + ParseU32(text[|text| - 5..|text| - 3]).value * 60
           + ParseU32(text[|text| - 2..]).value
         == (target * 1000 - (now - t.startedMs.value)) / 1000
  {
    var restMs := Evaluate(t.hours, t.minutes, t.seconds, t.startedMs.value, now).value.restMs;
    ClockTextReadBack(restMs / 1000);
  }
}
