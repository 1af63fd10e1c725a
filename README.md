# desktop_timer: the countdown-timer engine, in Dafny

`desktop_timer` is a small egui desktop clock that keeps a list of
countdown timers. Each timer has a label, three text fields for hours,
minutes and seconds, an optional start stamp in milliseconds since the Unix
epoch, and a "Loop" (auto-restart) checkbox. On every frame,
`TemplateApp::update` walks the list in order. For an idle timer it shows
the text fields and a Start button. For a running timer it:

- parses the fields;
- compares the target with the time elapsed since the start stamp;
- when time is up, shows a red `00:00:00`, beeps, and restarts the timer if
  Loop is set;
- otherwise shows the remaining whole seconds as `HH:MM:SS`.

Clicking "x" marks a timer for removal. Marked timers are removed after the
walk, one index after another. "+ New timer" appends a default timer.

This project models that engine and proves its properties.

- `outcomes.dfy` (module `Outcomes`): `Option` and `Result`.
- `panics.dfy` (module `Panics`): the reasons a frame panics.
- `decimal.dfy` (module `Decimal`): Rust's `str::parse::<u32>`. It gives
  `Empty` for an empty string and `InvalidDigit` for a lone sign. It skips
  one leading `+`, then reads digits left to right; a non-digit is
  `InvalidDigit` and a value over `u32::MAX` is `PosOverflow`. The module
  also has the `{}` and `{:02}` formats. The proofs cover both directions
  of what the parser accepts, and the round trip between formatting and
  parsing.
- `countdown.dfy` (module `Countdown`): the arithmetic of one evaluation:
  elapsed time, the target in seconds, the expiry decision, the HH:MM:SS
  split and the displayed text.
- `timers.dfy` (module `Timers`): the `Timer` class (fields, `Default`,
  `Start`, `Reset`) and its value `TimerState`. `Tick` is a function giving
  what one frame does to one timer. `TickTimer` is the in-place loop body,
  proved against `Tick`. Lemmas cover auto-restart, staying expired, reset
  and the countdown display.
- `app.dfy` (module `App`): the timer list.
  - Specification functions: `RemoveAt` (`Vec::remove`), `RemoveEach` (the
    batched removal loop), `MarkedIndices`, `TickAll` and `Frame` (one whole
    frame).
  - `Keep`, an independent description of which elements the removal loop
    keeps: those whose original position is not dropped. For ascending marks
    (which is how the frame loop collects them), the k-th mark drops the
    element originally at position `indices[k] + k`.
  - The `TemplateApp` class, whose methods `TickEach`, `RemoveMarked`,
    `AddTimer` and `Update` are proved against those functions.

Interfaces and how they are modelled:

- The wall clock (`SystemTime::now()`) is an explicit `now: uint64`
  parameter, in milliseconds since the epoch.
- Button clicks are a `Clicks` value per timer, plus one `addClicked` flag
  per frame.
- The beep is the `timeUp` flag of the row that `Update` returns for that
  timer.
- A panic (`expect`, or `Vec::remove` past the end) is an `Err(Panic)`
  result. Its Rust message becomes the constructor: `TimeWentBackwards`,
  `InvalidHours`, `InvalidMinutes`, `InvalidSeconds`,
  `RemovalIndexOutOfBounds`.

The field `label` is called `labelText` here, because `label` is a reserved
word in Dafny.

Behaviour of the code that the model keeps as written:

- A timer is only idle (`started_ms == None`) or running (`Some`).
- A field that does not parse makes the frame panic (`expect`,
  src/app.rs:141-143).
- A clock reading before the start stamp makes the frame panic with "Time
  went backwards" (src/app.rs:140).
- Removing an index past the end panics (`Vec::remove`, src/app.rs:200).
- While a timer without auto-restart stays expired, `play_beep` is called
  on every frame (src/app.rs:146-148; `ExpiredStaysExpired`).
- Marked indices are removed one after another from the shrinking list
  (src/app.rs:199-201). So marks after the first shift:
  `BatchedRemovalDropsShifted` states this in general, and
  `BatchedRemovalShifts` and `BatchedRemovalOverruns` show it on small
  lists.

## Model

| member | source | states |
|---|---|---|
| `Decimal.ParseU32` | src/app.rs:141-143 | `parse::<u32>` reports `Empty` exactly for the empty string, and every value it accepts is at most `u32::MAX` |
| `Decimal.Accumulate` | src/app.rs:141-143 | the digit loop never reports `Empty`, and from an in-range start it only yields in-range values no smaller than the start |
| `Decimal.AccumulateCorrect` | src/app.rs:141-143 | the digit loop succeeds exactly on all-digit text whose value fits in a u32, and then yields that value |
| `Decimal.ParseU32Correct` | src/app.rs:141-143 | `parse::<u32>` succeeds exactly on an optional `+` followed by one or more digits with value at most `u32::MAX`, and yields that value |
| `Decimal.ToDecimal` | src/app.rs:162 | the decimal text of a number is a non-empty string of digits |
| `Decimal.NoLeadingZero` | src/app.rs:162 | the `{}` text of a positive number does not start with `0` |
| `Decimal.ValueOfDecimal` | src/app.rs:162 | reading back the decimal text of `n` gives `n` |
| `Decimal.ParseDecimal` | src/app.rs:141-143 | parsing the decimal text of any u32 value gives that value back |
| `Decimal.Pad2Correct` | src/app.rs:162 | `{:02}` prints at least two digits, exactly two below 100, a leading zero exactly below 10, and the text reads and parses back to the number |
| `Decimal.Pad2` | src/app.rs:162 | no ensures; its properties are in `Decimal.Pad2Correct` |
| `Countdown.ElapsedMs` | src/app.rs:138-140 | elapsed time exists exactly when `now >= started`, and then `started + elapsed == now`; otherwise the panic is `TimeWentBackwards` |
| `Countdown.TargetSeconds` | src/app.rs:141-144 | the target exists exactly when all three fields parse; a bad hours field is reported first, then a bad minutes field, then a bad seconds field, each with its parse error; the target fits in a u32 |
| `Countdown.TargetOfDigitFields` | src/app.rs:141-144 | fields holding digit strings, each with one optional leading `+`, with values h, m and s give the target `h*3600 + m*60 + s` |
| `Countdown.Evaluate` | src/app.rs:137-146 | evaluation succeeds exactly when the clock is not behind and the fields parse; time is up exactly when `target*1000 <= now - started`; otherwise the remainder is positive and remainder plus elapsed equals `target*1000` |
| `Countdown.Split` | src/app.rs:156-160 | minutes and seconds are below 60, and `h*3600 + m*60 + s` is the remaining whole seconds |
| `Countdown.ClockText` | src/app.rs:162 | no ensures; its properties are in `Countdown.ClockTextReadBack` |
| `Countdown.RemainingText` | src/app.rs:155-162 | no ensures; its properties are in `Countdown.TimeUpLooksLikeZero` and `Timers.RunningShowsRemaining` |
| `Countdown.SplitJoin` | src/app.rs:158-160 | the split is the only one with minutes and seconds below 60, so it inverts `h*3600 + m*60 + s` |
| `Countdown.TimeUpLooksLikeZero` | src/app.rs:149 | the red time-up text equals the countdown label shown with any remainder below one second |
| `Countdown.ClockTextReadBack` | src/app.rs:162 | the label is `H:MM:SS` with at least two hour digits and exactly two digits each for minutes and seconds; all three fields are digits, and parsing them gives back the split of the remaining seconds |
| `Timers.Timer.Default` | src/app.rs:34-45 | a new timer is idle, with an empty label, all three fields `"0"` and auto-restart off |
| `Timers.Timer.Start` | src/app.rs:21-27 | `start` sets the start stamp to `now` and changes no other field |
| `Timers.Timer.Reset` | src/app.rs:29-31 | `reset` makes the timer idle and changes no other field |
| `Timers.ResetTwice` | src/app.rs:29-31 | resetting twice leaves the timer as resetting once does |
| `Timers.TickChangesOnlyStart` | src/app.rs:135-198 | a frame changes only a timer's start stamp; an idle timer never panics and shows its text fields; a running timer shows a countdown label |
| `Timers.Tick` | src/app.rs:137-189 | no ensures (it requires the timer to be `Evaluable`, see "## Left out"); its properties are in `Timers.TickChangesOnlyStart`, `Timers.StartFromIdle`, `Timers.FreshStartShowsTarget`, `Timers.AutoRestartRearms`, `Timers.ExpiredStaysExpired`, `Timers.ResetMakesIdle`, `Timers.RunningShowsRemaining` and `Timers.DefaultTimerIsUpAtOnce`; `Timers.TickTimer` is proved against it |
| `Timers.TickTimer` | src/app.rs:137-189 | the in-place loop body returns `Tick`'s row and leaves the timer in `Tick`'s state; if it panics, the timer is unchanged |
| `Timers.StartFromIdle` | src/app.rs:183-185 | clicking Start on an idle timer stamps `now`, changes nothing else, and this frame still shows the text fields; at the next frame, at any instant `later >= now` and without Reset, red zeros show exactly when the target has elapsed since the click |
| `Timers.FreshStartShowsTarget` | src/app.rs:144-146 | at the instant a timer starts, the whole target remains, or time is up at once for a zero target |
| `Timers.AutoRestartRearms` | src/app.rs:146-153 | an expired timer with auto-restart shows red zeros and is re-stamped at `now`; at that same instant a non-zero target is not up again |
| `Timers.ExpiredStaysExpired` | src/app.rs:146-153 | an expired timer without auto-restart keeps its start stamp, and shows red zeros and beeps at every later instant until it is reset |
| `Timers.ResetMakesIdle` | src/app.rs:165-167 | a Reset click makes a running timer idle, whether or not its time was up |
| `Timers.RunningShowsRemaining` | src/app.rs:154-163 | a running timer that is not up shows a label whose three digit fields parse back to h, m and s, with m and s below 60 and `h*3600 + m*60 + s` equal to the whole seconds left, `(target*1000 - elapsed) / 1000` |
| `Timers.DefaultTimerIsUpAtOnce` | src/app.rs:34-45 | a default timer that is started is up at that same instant and shows red zeros |
| `App.RemoveAt` | src/app.rs:200 | `Vec::remove(i)` shortens the list by one; the elements before `i` stay in place and those after `i` move down by one |
| `App.RemoveEach` | src/app.rs:199-201 | each successful removal takes away one element |
| `App.MarkedIndices` | src/app.rs:187-189 | the collected indices are those whose "x" was clicked, all in range and strictly ascending |
| `App.TickAll` | src/app.rs:135-198 | no ensures (it requires every running timer to be `Evaluable`, see "## Left out"); its properties are in `App.TickAllPointwise`, `App.TickAllPanicPropagates`, `App.TickAllFirstPanic` and `App.TickAllExtend`; `App.TemplateApp.TickEach` is proved against it |
| `App.TickAllPointwise` | src/app.rs:135-198 | the walk over the list panics exactly when some timer's own tick panics; otherwise each timer and each row is that timer's own tick result |
| `App.TickAllPanicPropagates` | src/app.rs:135-198 | once a prefix of the walk panics, the whole frame panics with the same error |
| `App.TickAllFirstPanic` | src/app.rs:135-198 | the first timer whose tick panics decides the panic of the frame |
| `App.TickAllExtend` | src/app.rs:135-198 | one more step of the walk either appends that timer's tick result or ends the frame with its panic |
| `App.RemoveEachInBounds` | src/app.rs:199-201 | the removal loop succeeds exactly when the k-th index is below the length left after k removals |
| `App.RemoveSingle` | src/app.rs:199-201 | removing one marked index drops exactly that timer and keeps the others in their relative order |
| `App.BatchedRemovalShifts` | src/app.rs:199-201 | with indices 0 and 1 both marked, the timer that was at index 2 is removed and the one at index 1 is kept |
| `App.BatchedRemovalOverruns` | src/app.rs:199-201 | with two timers both marked, the second removal is past the end and panics |
| `App.RemoveEachKeeps` | src/app.rs:199-201 | a successful removal loop keeps exactly the elements whose original position is outside the positions its indices drop; each later index is mapped back past the positions already removed at or before it |
| `App.BatchedRemovalDropsShifted` | src/app.rs:199-201 | for ascending marks, as the frame loop collects them, a successful removal loop keeps exactly the elements whose original position is not `indices[k] + k` for any k |
| `App.Frame` | src/app.rs:134-205 | no ensures (it requires every running timer to be `Evaluable`, see "## Left out"); its properties are in `App.FrameWithoutRemoval`; `App.TemplateApp.Update` is proved against it |
| `App.FrameWithoutRemoval` | src/app.rs:135-205 | with no "x" clicked, the list keeps its order, each timer becomes its own tick result, and "+ New timer" appends exactly one default timer at the end |
| `App.States` | src/app.rs:52 | the value list has one entry per timer, in order |
| `App.StatesAppend` | src/app.rs:204 | the values of a list with one timer appended are the old values followed by that timer's value |
| `App.StatesRemoveAt` | src/app.rs:200 | the values of a list after `remove(i)` are the old values after `remove(i)` |
| `App.TemplateApp.constructor` | src/app.rs:55-59 | the app starts with no timers |
| `App.TemplateApp.AddTimer` | src/app.rs:203-205 | the list grows by exactly one fresh default timer at the end, and the earlier timers are untouched |
| `App.TemplateApp.RemoveTimer` | src/app.rs:200 | `timers.remove(idx)` panics exactly when `idx` is past the end; otherwise it drops the timer at `idx` |
| `App.TemplateApp.TickEach` | src/app.rs:134-198 | the walk ticks every timer in place and returns `TickAll`'s rows, or its first panic, together with the marked indices in ascending order |
| `App.TemplateApp.RemoveMarked` | src/app.rs:199-201 | the removal loop leaves the list that `RemoveEach` gives, or panics where `RemoveEach` panics |
| `App.TemplateApp.Update` | src/app.rs:116-206 | one frame returns the rows of `Frame` and leaves the list that `Frame` gives, or panics exactly where `Frame` panics |

## Left out

- Rendering is left out as UI: panels, `TextEdit`, buttons, checkbox, fonts, visuals, the current-time and date labels (src/app.rs:80-94, 119-131, 169-197), and the dead `if false` window (src/app.rs:208-221).
- Text edits of the hours, minutes, seconds and label fields, and the Loop checkbox (src/app.rs:169-182, 191-197), are left out of `Update`. They only assign the `Timer` fields, and the model lets callers assign them directly between frames.
- The periodic repaint task (src/app.rs:97-104) is left out: it is concurrency, and it only triggers frames.
- `play_beep` (src/app.rs:225-243) is left out: it is an audio task spawned and never joined. The model keeps only the `timeUp` flag of a row, meaning a beep was started.
- Persistence through serde and `epi` storage (src/app.rs:9-10, 47-49, 75-78, 109-112) is left out: these are foreign library calls.
- src/main.rs is not part of this model. It is the eframe bootstrap.
- Countdown.TargetSeconds: does not model u32 overflow in `hours * 3600 + minutes * 60 + seconds`. A debug build panics there and a release build wraps around. The model instead requires `TargetFits`, meaning the sum fits in a u32 when all three fields parse.
- Countdown.Evaluate: inherits the `TargetFits` precondition from `TargetSeconds`.
- Timers.TickTimer: inherits the `TargetFits` precondition through `Evaluable`.
- Timers.Tick: inherits the `TargetFits` precondition through `Evaluable`.
- App.TickAll: requires every running timer to be `Evaluable`.
- App.Frame: requires every running timer to be `Evaluable`.
- App.TemplateApp.TickEach: requires every running timer to be `Evaluable`.
- App.TemplateApp.Update: requires every running timer to be `Evaluable`. On a panic it says nothing about the list, because the Rust process unwinds and stops.
- Clock precision is not modelled. `SystemTime` has nanosecond resolution, but the model reads the clock in whole milliseconds, and uses one reading for every timer and every `start` in a frame. The source reads the clock again for each of them.
- The panic of `start` for a clock before the Unix epoch (src/app.rs:25) cannot occur here, because `now` is a `uint64`. For the same reason the `as_millis() as u64` truncation (src/app.rs:26) is the identity.
