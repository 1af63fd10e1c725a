/**
 * The arithmetic of one countdown evaluation (src/app.rs, inside the frame
 * loop of `TemplateApp::update`): the target duration from the three text
 * fields, the time elapsed since the start stamp, the expiry decision, and
 * the HH:MM:SS display of the remaining whole seconds.
 */
module Countdown {
  import opened Outcomes
  import opened Decimal
  import opened Panics

  /** Rust's `u64`; wall-clock readings are milliseconds since the Unix epoch. */
  type uint64 = x: int | 0 <= x < 0x1_0000_0000_0000_0000

  /** What a running timer shows: time is up, or `restMs` milliseconds remain. */
  datatype Reading = TimeUp | Left(restMs: nat)

  /**
   * The caller's obligation standing in for u32 arithmetic: when all three
   * fields parse, `hours * 3600 + minutes * 60 + seconds` fits in a u32.
   */
  predicate TargetFits(hours: string, minutes: string, seconds: string) {
    match (ParseU32(hours), ParseU32(minutes), ParseU32(seconds))
    case (Ok(h), Ok(m), Ok(s)) => h * 3600 + m * 60 + s <= U32_MAX
    case _ => true
  }

  /** The time elapsed since the start stamp: fails when the clock reads before it. */
  function ElapsedMs(startedMs: uint64, now: uint64): (r: Result<nat, Panic>)
    ensures r.Ok? <==> startedMs <= now
    ensures r.Ok? ==> startedMs + r.value == now
    ensures r.Err? ==> r.error == TimeWentBackwards
  {
    if now < startedMs then Err(TimeWentBackwards) else Ok(now - startedMs)
  }

  /** The target in seconds; a field that does not parse panics, hours checked first. */
  function TargetSeconds(hours: string, minutes: string, seconds: string): (r: Result<nat, Panic>)
    requires TargetFits(hours, minutes, seconds)
    ensures r.Ok? <==> ParseU32(hours).Ok? && ParseU32(minutes).Ok? && ParseU32(seconds).Ok?
    ensures r.Ok? ==> r.value <= U32_MAX
    ensures ParseU32(hours).Err? ==> r == Err(InvalidHours(ParseU32(hours).error))
    ensures ParseU32(hours).Ok? && ParseU32(minutes).Err? ==>
      r == Err(InvalidMinutes(ParseU32(minutes).error))
    ensures ParseU32(hours).Ok? && ParseU32(minutes).Ok? && ParseU32(seconds).Err? ==>
      r == Err(InvalidSeconds(ParseU32(seconds).error))
  {
    match ParseU32(hours)
    case Err(e) => Err(InvalidHours(e))
    case Ok(h) =>
      match ParseU32(minutes)
      case Err(e) => Err(InvalidMinutes(e))
      case Ok(m) =>
        match ParseU32(seconds)
        case Err(e) => Err(InvalidSeconds(e))
        case Ok(s) => Ok(h * 3600 + m * 60 + s)
  }

  /**
   * One evaluation of a running timer started at `startedMs`, at instant
   * `now`: elapsed time first (it may panic), then the target; time is up
   * once the target is not longer than the elapsed time.
   */
  function Evaluate(hours: string, minutes: string, seconds: string, startedMs: uint64, now: uint64): (r: Result<Reading, Panic>)
    requires TargetFits(hours, minutes, seconds)
    ensures r.Ok? <==> startedMs <= now && TargetSeconds(hours, minutes, seconds).Ok?
    ensures now < startedMs ==> r == Err(TimeWentBackwards)
    ensures startedMs <= now && TargetSeconds(hours, minutes, seconds).Err? ==>
      r == Err(TargetSeconds(hours, minutes, seconds).error)
    ensures r.Ok? ==>
      (r.value.TimeUp? <==> TargetSeconds(hours, minutes, seconds).value * 1000 <= now - startedMs)
    ensures r.Ok? && r.value.Left? ==>
      r.value.restMs > 0 &&
      (now - startedMs) + r.value.restMs == TargetSeconds(hours, minutes, seconds).value * 1000
  {
    match ElapsedMs(startedMs, now)
    case Err(e) => Err(e)
    case Ok(elapsed) =>
      match TargetSeconds(hours, minutes, seconds)
      case Err(e) => Err(e)
      case Ok(target) =>
        if target * 1000 <= elapsed then Ok(TimeUp) else Ok(Left(target * 1000 - elapsed))
  }

  /**
   * Fields holding digit strings (leading zeros allowed, one leading `+`
   * allowed) whose values h, m and s fit give the target h*3600 + m*60 + s
   * seconds.
   */
  lemma TargetOfDigitFields(hours: string, minutes: string, seconds: string)
    requires Unsigned(hours) != [] && Unsigned(minutes) != [] && Unsigned(seconds) != []
    requires AllDigits(Unsigned(hours)) && AllDigits(Unsigned(minutes)) && AllDigits(Unsigned(seconds))
    requires Value(Unsigned(hours)) * 3600 + Value(Unsigned(minutes)) * 60 + Value(Unsigned(seconds)) <= U32_MAX
    ensures TargetFits(hours, minutes, seconds) &&
      TargetSeconds(hours, minutes, seconds) ==
        Ok(Value(Unsigned(hours)) * 3600 + Value(Unsigned(minutes)) * 60 + Value(Unsigned(seconds)))
  {
    ParseU32Correct(hours);
    ParseU32Correct(minutes);
    ParseU32Correct(seconds);
  }

  /** Whole seconds split into hours, minutes and seconds. */
  function Split(restSec: nat): (hms: (nat, nat, nat))
    ensures hms.1 < 60 && hms.2 < 60
    ensures hms.0 * 3600 + hms.1 * 60 + hms.2 == restSec
  {
    (restSec / 3600, (restSec % 3600) / 60, restSec % 60)
  }

  /** The label of a running timer: hours, minutes and seconds, each padded to two digits, separated by colons. */
  function ClockText(hms: (nat, nat, nat)): string {
    Pad2(hms.0) + ":" + Pad2(hms.1) + ":" + Pad2(hms.2)
  }

  /** The label of a running timer with `restMs` left: the whole seconds left, as HH:MM:SS. */
  function RemainingText(restMs: nat): string {
    ClockText(Split(restMs / 1000))
  }

  /** The label of a timer whose time is up. */
  const TimeUpText: string := "00:00:00"

  /** The split is the only one with minutes and seconds below 60: it inverts h*3600 + m*60 + s. */
  lemma SplitJoin(h: nat, m: nat, s: nat)
    requires m < 60 && s < 60
    ensures Split(h * 3600 + m * 60 + s) == (h, m, s)
  {
    var hms := Split(h * 3600 + m * 60 + s);
    assert (h - hms.0) * 3600 == (hms.1 * 60 + hms.2) - (m * 60 + s);
    assert (m - hms.1) * 60 == hms.2 - s;
  }

  /** Time up and less than one second left look the same on screen. */
  lemma TimeUpLooksLikeZero(restMs: nat)
    requires restMs < 1000
    ensures RemainingText(restMs) == TimeUpText
  {
    assert Split(restMs / 1000) == (0, 0, 0);
  }

  /**
   * The display round-trips: it is `H:MM:SS` with two-digit minutes and
   * seconds and at least two hour digits, and reading the three fields
   * back gives the split of the remaining seconds.
   */
  lemma ClockTextReadBack(restSec: nat)
    requires restSec <= U32_MAX
    ensures var t := ClockText(Split(restSec));
      |t| >= 8 && t[|t| - 6] == ':' && t[|t| - 3] == ':' &&
      AllDigits(t[..|t| - 6]) && AllDigits(t[|t| - 5..|t| - 3]) && AllDigits(t[|t| - 2..]) &&
      ParseU32(t[..|t| - 6]) == Ok(Split(restSec).0) &&
      ParseU32(t[|t| - 5..|t| - 3]) == Ok(Split(restSec).1) &&
      ParseU32(t[|t| - 2..]) == Ok(Split(restSec).2) &&
      Split(restSec).0 * 3600 + Split(restSec).1 * 60 + Split(restSec).2 == restSec
  {
    var (h, m, s) := Split(restSec);
    Pad2Correct(h);
    Pad2Correct(m);
    Pad2Correct(s);
    var t := ClockText((h, m, s));
    var ph, pm, ps := Pad2(h), Pad2(m), Pad2(s);
    assert t == ph + ":" + pm + ":" + ps;
    assert t[..|t| - 6] == ph;
    assert t[|t| - 5..|t| - 3] == pm;
    assert t[|t| - 2..] == ps;
  }
}
