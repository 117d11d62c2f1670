# Stopwatch timer engine, in Dafny

This project models the logic of the React stopwatch widget `Stopwatch`
(`src/components/StopWatch.tsx`). That logic has two parts:

- **The timer engine.** The state is the elapsed time in milliseconds, a
  `running` flag and the list of lap marks. It starts at `0 / false / []`.
  Four inputs change it:
  - the Start/Stop button flips `running`;
  - the Reset button clears everything;
  - the Lap button appends the current time, but only while running;
  - the interval callback adds 10 ms on each call. The component arms it only
    while running.
- **The display formatter `formatTime`.** It renders a time as `MM:SS.mmm`.
  The minutes are `time / 60000` and are not reduced modulo 60. The seconds
  are `(time / 1000) % 60` and the milliseconds are `time % 1000`. Each field
  is left-padded with `'0'` by `padStart`.

`stopwatch.dfy` (module `StopwatchEngine`) holds the engine in two forms:

- `TimerState`, `Event` and the transition function `Step`, with `Run` for a
  sequence of events. The lemmas are stated over these.
- The class `Stopwatch`, with the component's three state variables as fields.
  Its methods `HandleStartStop`, `HandleReset`, `HandleLap` and `Tick` update
  the fields in place. Each one is proved to perform exactly one `Step` and to
  keep the invariant `Inv`.

The interval callback becomes the explicit method `Tick`. It has an effect
only while `running` holds, since the effect arms the interval only then and
its cleanup disarms it when `running` changes.

`time_format.dfy` (module `TimeFormat`) holds the formatter. Its pieces are:

- `ToDecimal`, the integer `toString`;
- `PadStart`;
- `Decompose`, which splits a time into its three fields;
- `FormatTime` itself.

Each piece has a partner there:

- `ParseDecimal` for `ToDecimal`, with round trips in both directions;
- `ParseTime` for `FormatTime`. It reads a `\d{2,}:\d{2}\.\d{3}` string back
  into its three fields, and the round trip is proved;
- `Recombine` for `Decompose`, where the split is proved unique.

One note on the code: the `else if (!running && interval !== null)` branch of the effect
(`StopWatch.tsx:31-34`) can never be taken, because `interval` is always `null`
there. The interval is stopped only by the effect's cleanup (`StopWatch.tsx:37`).
The model follows the resulting behaviour: once the watch is stopped, no
further tick changes the time.

## Model

| member | source | states |
|---|---|---|
| `StopwatchEngine.Stopwatch.constructor` | src/components/StopWatch.tsx:18-20 | The component starts with time 0, stopped and no laps (the `Initial()` state), which satisfies the invariant. |
| `StopwatchEngine.Stopwatch.HandleStartStop` | src/components/StopWatch.tsx:40-42 | Start/Stop negates `running`, leaves `time` and `laps` untouched, and keeps the invariant. |
| `StopwatchEngine.Stopwatch.HandleReset` | src/components/StopWatch.tsx:44-48 | From any state, Reset yields time 0, stopped and no laps, which is the initial state. |
| `StopwatchEngine.Stopwatch.HandleLap` | src/components/StopWatch.tsx:50-54 | While running, Lap appends the current time after the earlier laps. While stopped it changes nothing. Time and `running` are unchanged, and the invariant is kept. |
| `StopwatchEngine.Stopwatch.Tick` | src/components/StopWatch.tsx:27-37 | One interval callback adds exactly 10 ms while running. While stopped it changes nothing. Laps and `running` are unchanged, and the invariant is kept. |
| `StopwatchEngine.Initial` | src/components/StopWatch.tsx:18-20 | The mount state: time 0, stopped, no laps. It has no contract of its own. `InitialSatisfiesInv` proves that it satisfies the invariant, `HandleReset` that Reset returns to it, and the constructor that a new `Stopwatch` starts in it. |
| `StopwatchEngine.Step` | src/components/StopWatch.tsx:27-54 | One transition per input: Start/Stop flips `running`, Reset returns to `Initial()`, Lap appends the time while running, and a tick adds 10 ms while running. It has no contract of its own. Its properties are carried by `StepPreservesInv`, by the `Run` lemmas below, and by the handler contracts above, each of which proves that its method performs exactly one `Step`. |
| `StopwatchEngine.InitialSatisfiesInv` | src/components/StopWatch.tsx:18-20 | The initial state satisfies the invariant. |
| `StopwatchEngine.StepPreservesInv` | src/components/StopWatch.tsx:27-54 | Every transition keeps the invariant: laps are non-decreasing, each lap is at most the elapsed time, and time and laps are multiples of 10 ms. |
| `StopwatchEngine.RunPreservesInv` | src/components/StopWatch.tsx:18-54 | Every state reached by any sequence of inputs from a state satisfying the invariant satisfies it too, so the lap properties hold in every reachable state. |
| `StopwatchEngine.TicksWhileRunning` | src/components/StopWatch.tsx:27-30 | While running, n ticks add exactly 10·n ms and change nothing else. |
| `StopwatchEngine.StoppedIsFrozen` | src/components/StopWatch.tsx:27-54 | While stopped, any sequence of ticks and lap presses leaves the whole state unchanged: the time is frozen and no lap is recorded. |
| `StopwatchEngine.LapsAppendOnlyUntilReset` | src/components/StopWatch.tsx:50-54 | With no reset, the earlier laps remain a prefix of the later ones, and the time never decreases. |
| `StopwatchEngine.StartThenStop` | src/components/StopWatch.tsx:40-42 | Start followed at once by stop, with no tick in between, restores the whole state, including the time. |
| `StopwatchEngine.ExampleSessionLaps` | src/components/StopWatch.tsx:27-54 | Start, five ticks, lap, three ticks, lap gives the laps `[50, 80]`. |
| `StopwatchEngine.ExampleSession` | src/components/StopWatch.tsx:18-54 | The same session, played on a `Stopwatch` object through its methods, leaves the laps `[50, 80]`. |
| `TimeFormat.ToDecimal` | src/components/StopWatch.tsx:61-63 | `toString` of a non-negative integer is a non-empty string of digits with no leading zero. |
| `TimeFormat.ParseToDecimal` | src/components/StopWatch.tsx:61-63 | Reading the digits of `toString(n)` back gives `n`. |
| `TimeFormat.ToDecimalOfParse` | src/components/StopWatch.tsx:61-63 | Every canonical numeral is `toString` of its own value. Together with the row above, `toString` is a bijection onto canonical numerals. |
| `TimeFormat.DecimalLength` | src/components/StopWatch.tsx:61-63 | For every k ≥ 1, `toString(n)` has at most k digits if and only if n < 10^k. For k = 0 the equivalence fails at n = 0, because `toString(0)` is `"0"`. |
| `TimeFormat.PadStart` | src/components/StopWatch.tsx:61-63 | `padStart(n, fill)` never shortens its input. Its result is `max(n, length)` long, ends with the original string, and has only fill characters in front of it. |
| `TimeFormat.PadStartKeepsValue` | src/components/StopWatch.tsx:61-63 | Zero-padding a numeral leaves a numeral with the same value. |
| `TimeFormat.Decompose` | src/components/StopWatch.tsx:58-60 | The three fields are minutes `t / 60000` (no modulo), seconds `(t / 1000) % 60` and milliseconds `t % 1000`. Seconds are below 60 and milliseconds below 1000, and `minutes*60000 + seconds*1000 + ms == t`. |
| `TimeFormat.DecomposeUnique` | src/components/StopWatch.tsx:58-60 | Any split of `t` with seconds below 60 and milliseconds below 1000 that recombines to `t` is the one `formatTime` computes. |
| `TimeFormat.RecombineDecompose` | src/components/StopWatch.tsx:58-60 | Splitting the recombination of any in-range triple gives that triple back. |
| `TimeFormat.FormatTime` | src/components/StopWatch.tsx:57-64 | `formatTime`: minutes `t / 60000`, seconds `(t / 1000) % 60` and milliseconds `t % 1000`, padded with `'0'` to 2, 2 and 3 digits and joined by `:` and `.`. It has no contract of its own. Its properties are carried by `FormatTimeFields`, `FormatTimeShape`, `FormatTimeRoundTrip` and `FormatTimeInjective` below. |
| `TimeFormat.FormatTimeFields` | src/components/StopWatch.tsx:57-64 | The output is minutes field, `:`, seconds field, `.`, milliseconds field. The minutes field is `max(2, digits of the minutes)` long, the seconds field exactly 2 and the milliseconds field exactly 3. Each field is a numeral whose value is that part of the time. |
| `TimeFormat.FormatTimeShape` | src/components/StopWatch.tsx:57-64 | Every output matches `\d{2,}:\d{2}\.\d{3}`. It is exactly 9 characters long if and only if the time is below 100 minutes. |
| `TimeFormat.FormatTimeRoundTrip` | src/components/StopWatch.tsx:57-64 | Parsing the output back gives exactly the minutes, seconds and milliseconds of the time, and recombining them gives the time itself. |
| `TimeFormat.FormatTimeInjective` | src/components/StopWatch.tsx:57-64 | Two times with the same display are equal. |
| `TimeFormat.FormatTimeZero` | src/components/StopWatch.tsx:57-64 | `formatTime(0) == "00:00.000"`. |
| `TimeFormat.FormatTimeOneMinuteOneSecond` | src/components/StopWatch.tsx:57-64 | `formatTime(61234) == "01:01.234"`. |
| `TimeFormat.FormatTimeOneHour` | src/components/StopWatch.tsx:57-64 | `formatTime(3600000) == "60:00.000"`. The minutes are not reduced modulo 60. |

## Left out

- Rendering (`StopWatch.tsx:66-95`) is not modelled. This covers the MUI
  layout, the button labels, the Lap button's `disabled` styling and the lap
  list. It is presentation only; its one piece of logic is calling
  `formatTime`, which is modelled.
- The scheduling itself is not modelled: the `useEffect` lifecycle and
  `setInterval`/`clearInterval`. Host timers are foreign code. The callback is
  the explicit `Stopwatch.Tick`, and there is no model of real-time drift or
  of how accurate the 10 ms period is.
- React's batching of state updates and its stale closures are not modelled.
  Each handler is one atomic transition.
- `../styles/stopwatchStyles` is not part of this model. It holds styling
  only.
- JavaScript `number` is modelled as an unbounded `nat`. The model has no
  floating point, so `Math.floor` and `%` are integer `/` and `%`. The time
  starts at 0 and grows only in steps of 10, so the double arithmetic agrees
  with the model for every time below 2^53 ms (about 285,000 years of
  running). The two lines below name what the model does not follow beyond
  that.
- StopwatchEngine.Stopwatch.Tick: the tick always adds exactly 10. In IEEE
  doubles, `prevTime + 10` (`StopWatch.tsx:29`) is rounded from 2^54 ms on;
  from 2^57 ms on it adds nothing, and the JavaScript stopwatch stops
  counting. The same holds for `Step`'s `Tick` case.
- TimeFormat.Decompose: the split uses exact integer division. From 2^53 ms
  on, doubles no longer hold every integer, and the model does not follow
  how `time % 1000` and `Math.floor(time / 1000)` (`StopWatch.tsx:58-60`)
  round there.
- TimeFormat.ToDecimal: does not model `toString` switching to exponent
  notation at 10^21 and above. The model always writes plain digits. For the
  minutes field that would take a time beyond 6·10^25 ms.
