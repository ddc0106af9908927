# Waveform widget — a verified model

The waveform widget (`components/Waveform.tsx`) draws four digital signals
scrolling past: a clock (CLK), an active-low reset (RESET_N), a VALID strobe and
a DATA[7:0] bus. Each signal is a string of 100 bits (`'0'`, `'1'` or the bug
marker `'X'`), drawn twice in a row so the loop scrolls seamlessly, and turned
into an SVG step trace plus a red "X" overlay by `generatePathData`. The user
picks a bug tick (0-99). The DATA row then shows an `X` there whenever its
VALID draw at that tick is high. A scanner sweeps the loop and a timer drives
the bug lifecycle IDLE → DETECTED → CORRECTING → FIXED. From CORRECTING on, the
DATA row is swapped for a freshly drawn trace with no bug. The user can hide
rows, pause and resume the animation, and re-inject the bug at another tick.

The project has one module per concern:

- `Signals` (signals.dfy): the bit rules of the four signal templates. Each
  `Math.random()` draw is a boolean coin passed in as a parameter.
- `PathData` (path_data.dfy): `generatePathData` as a method with a loop. It is
  proved equal to two specification functions, `TracePath` and `BugPath`, over
  SVG commands `M x,y` / `L x,y`. The shape of the trace is proved about those
  functions. A printer turns commands into the path text.
- `Numerals` (numerals.dfy): `parseInt(text, 10)` as a parser (leading white
  space, optional sign, digit prefix; `None` is NaN), and the decimal printing
  of non-negative integers.
- `Lifecycle` (lifecycle.dfy): the timer the effect sets for each state, the
  course of the lifecycle, and what a React commit does to a pending timer when
  the effect's dependencies change or stay the same.
- `Layout` (layout.dfy): the derived render values. These are the bug's x
  position, the highlight's y position under hidden rows, whether the animation
  is frozen, and which marker and message are shown.
- `Traces` (traces.dfy): the rows the widget computes (`initialSignals`,
  `correctedDataSignal`, `finalSignalList`) and what their overlays hold.
- `Widget` (widget.dfy): the component's state as a class `Waveform`. Its
  handlers are methods; each one ends with the commit that re-runs the
  lifecycle effect. `Elapse` lets time pass until the pending timer fires.

A comment in the DATA rule (line 32) says data is present only when VALID is
high. The code calls `generateValidBit` again inside the DATA rule, though, so
DATA draws its own validity: the DATA row is not tied to the VALID row on
screen. The model follows the code (`Signals.DataBit` takes its own coin), and
`Signals.DataRowNotTiedToValidRow` exhibits a tick where VALID shows `0` and
DATA shows `1`. A consequence of the window rule: with the default bug tick 55,
VALID is always low at tick 55 (55 % 20 is 15), so the DATA row never shows an
`X`, while the lifecycle still announces BUG DETECTED
(`Signals.DefaultTickNeverFaults`).

## Model

| member | source | states |
|---|---|---|
| Signals.ClockIsPeriodic | components/Waveform.tsx:28 | CLK is high exactly when `tick % 4 < 2`, never `X`, periodic with period 4, high for exactly two of any four consecutive ticks |
| Signals.ResetReleasesOnce | components/Waveform.tsx:29 | RESET_N is low exactly for ticks below 15, never `X`, and stays high once released |
| Signals.ValidWindows | components/Waveform.tsx:23-25 | VALID is low up to tick 20 and in the second half of every 20-tick window whatever the draw; inside the windows it is high exactly when the draw succeeds; never `X` |
| Signals.DataFollowsItsValidDraw | components/Waveform.tsx:31-42 | DATA is low whenever its own VALID draw is low, and is `X` exactly when that draw is high and the tick is congruent to the bug tick modulo 100 |
| Signals.DataRowNotTiedToValidRow | components/Waveform.tsx:30-35 | the DATA row can be high at a tick where the VALID row is low, because DATA draws its validity afresh |
| Signals.CorrectedIsDataWithoutBug | components/Waveform.tsx:177-180 | a corrected bit is the DATA rule with no bug tick, and never `X` |
| Signals.RowBits | components/Waveform.tsx:130-135 | a row holds 100 bits, bit `i` being the row's rule at tick `i` with the current bug tick |
| Signals.CorrectedBits | components/Waveform.tsx:177-180 | the corrected trace holds 100 bits, bit `i` following the corrected rule at tick `i` |
| Signals.DataRowFaultAtBugTick | components/Waveform.tsx:31-42 | within one loop the DATA row holds `X` at most at the bug tick, and there exactly when its VALID draw is high |
| Signals.DefaultTickNeverFaults | components/Waveform.tsx:23-42 | with the default bug tick 55 the DATA row holds no `X` for any draws, since VALID is always low at tick 55 |
| Signals.OnlyDataRowHasFaults | components/Waveform.tsx:28-30 | CLK, RESET_N, VALID and the corrected trace never hold an `X` |
| PathData.GeneratePathData | components/Waveform.tsx:49-81 | the loop's `path` equals the step trace `TracePath(bits)` and its `bugPath` equals the overlay `BugPath(bits)` |
| PathData.BugPathStep | components/Waveform.tsx:65-69 | an iteration adds a glyph to the overlay exactly when its bit is `X` |
| PathData.TracePrefix | components/Waveform.tsx:55-78 | the loop only appends: the path after fewer iterations is a non-empty prefix of the path after more |
| PathData.TraceStart | components/Waveform.tsx:52-53 | the trace opens with `M 0,y`, `y` being 10, 30 or 20 for a first bit `1`, `0` or `X` (20 for an empty string) |
| PathData.TraceEnd | components/Waveform.tsx:70-77 | after a cell that is not `X` the pen stands at that cell's right edge, at its level |
| PathData.TraceLevels | components/Waveform.tsx:62-77 | every command after the opening `M` lies at level 10 or 30: the trace never draws at the `X` level |
| PathData.VerticalEdgesOnlyAtTransitions | components/Waveform.tsx:70-75 | every vertical edge stands at the left boundary of a cell whose defined bit differs from the defined bit before it, joining the two levels |
| PathData.LinesAreAxisAligned | components/Waveform.tsx:62-77 | every line of the trace is horizontal or vertical: a line that changes the level keeps the x of the point before it |
| PathData.LevelChangesOnlyAtTransitions | components/Waveform.tsx:70-77 | a line changes the level only at the left boundary of a cell whose defined bit differs from the one before, so a run of equal defined bits is drawn with horizontal lines only |
| PathData.TransitionsDrawVerticalEdges | components/Waveform.tsx:74-75 | conversely, each such transition draws a vertical edge to the new level at the cell's left boundary |
| PathData.MovesOnlyAfterFaults | components/Waveform.tsx:65-73 | after the opening `M`, the trace restarts with `M` only at a defined bit right after an `X`, at that bit's level |
| PathData.RestartAfterFault | components/Waveform.tsx:71-73 | conversely, a defined bit after an `X` restarts the trace with `M` at its left boundary and level |
| PathData.ConstantBitsDrawFlatLine | components/Waveform.tsx:52-77 | a string of one defined bit value draws one flat line, one `L` per cell, and no overlay |
| PathData.FaultCellsAreTheUnknowns | components/Waveform.tsx:65-69 | the cells that get a glyph are exactly those holding `X`, in increasing order |
| PathData.GlyphsLayout | components/Waveform.tsx:69 | the overlay is four commands per glyph, the k-th group being the k-th glyph |
| PathData.OneGlyphPerFault | components/Waveform.tsx:65-69 | `bugPath` holds exactly one crossed glyph `M x1,10 L x2,30 M x1,30 L x2,10` per `X` cell, in order |
| PathData.BugPathEmptyIffNoFault | components/Waveform.tsx:65-69 | `bugPath` is empty exactly when no bit is `X` |
| PathData.FlatLine | components/Waveform.tsx:77 | a flat line of `n` cells is the opening `M` and `n` lines at the same level |
| PathData.RenderPath | components/Waveform.tsx:53-77 | the path text is empty exactly for no commands and starts with the first command's text |
| PathData.RenderBugPath | components/Waveform.tsx:69 | the overlay text is empty exactly for no commands |
| PathData.RenderedTraceStart | components/Waveform.tsx:52-53 | the printed path starts with `M 0,` and the start level in decimal |
| PathData.RenderedBugPathEmptyIffNoFault | components/Waveform.tsx:69 | the printed overlay is the empty string, which the widget does not draw, exactly when no bit is `X` |
| Numerals.TrimStart | components/Waveform.tsx:110 | parseInt's white-space skip leaves a suffix that does not start with white space |
| Numerals.DigitPrefix | components/Waveform.tsx:110 | parseInt reads the longest run of digits |
| Numerals.ParseInt | components/Waveform.tsx:110 | parseInt gives a number exactly when a digit follows the white space and the optional sign |
| Numerals.Decimal | components/Waveform.tsx:88 | `toString` of a natural number is a non-empty digit string without leading zeros whose value is the number |
| Numerals.ParseIntReadsDecimal | components/Waveform.tsx:110 | parseInt reads back a printed number after any white space, with its sign, stopping at the first non-digit |
| Numerals.SignedNumeralParses | components/Waveform.tsx:110 | any run of digits, leading zeros included, after an optional sign and before a non-digit, is read as its value with that sign |
| Numerals.LeadingZerosValue | components/Waveform.tsx:110 | leading zeros do not change the value of a digit string |
| Numerals.ParseIntRejectsNonNumeral | components/Waveform.tsx:110-111 | parseInt gives NaN when no digit follows the white space and the sign, including for "", white space alone, and a sign alone |
| Widget.AcceptedTick | components/Waveform.tsx:110-111 | a tick is accepted exactly when parseInt gives a number in 0 .. 99, and it is that number |
| Widget.NumeralsAccepted | components/Waveform.tsx:110-111 | the numerals 0 .. 99 are accepted (with any non-digit tail, so "7.5" is 7), those from 100 on are rejected |
| Widget.NegativesRejected | components/Waveform.tsx:110-111 | every negative numeral is rejected; "-0" is accepted as 0 |
| Widget.NonNumeralsRejected | components/Waveform.tsx:110-111 | text with no digit after its white space and sign is rejected ("", "  ", "-", "+x", "abc") |
| Widget.EmptyFieldRejected | components/Waveform.tsx:226-230 | the empty text, which the number field holds after an entry that is not a number, is rejected |
| Widget.ZeroPaddedNumeralsAccepted | components/Waveform.tsx:110-111 | a zero-padded numeral is read as its value: "055" is accepted as 55, "0100" is rejected |
| Widget.DefaultTickText | components/Waveform.tsx:88 | the field's initial text is "55" |
| Widget.DefaultTickAccepted | components/Waveform.tsx:87-88 | the field's initial text is accepted as tick 55 |
| Lifecycle.BugTimeMs | components/Waveform.tsx:140-142 | the IDLE timer's delay is 1000 ms plus 100 ms per tick of the bug tick |
| Lifecycle.BugTimeSeparatesTicks | components/Waveform.tsx:140-142 | every bug tick's delay lies within the first scan, and different ticks have different delays |
| Lifecycle.Schedule | components/Waveform.tsx:154-166 | no timer while paused or once FIXED; otherwise a timer that advances the state by exactly one step, after bugTime from IDLE, 1000 ms from DETECTED and 1500 ms from CORRECTING |
| Lifecycle.Run | components/Waveform.tsx:154-166 | left alone, the lifecycle sets one timer per later state, each firing into the next state in order, none skipped or repeated |
| Lifecycle.LifecycleFromIdle | components/Waveform.tsx:157-166 | from IDLE, for every bug tick, the timers are exactly: DETECTED after bugTime, CORRECTING after 1000 ms, FIXED after 1500 ms |
| Lifecycle.Reconcile | components/Waveform.tsx:154-168 | a commit with changed dependencies cancels the pending timer and sets the new one; with unchanged dependencies the pending timer runs on |
| Lifecycle.StaleTimerAfterReinjection | components/Waveform.tsx:109-116 | with the dependency list as written, re-injecting the same tick while IDLE and playing keeps the older, shorter timer |
| Lifecycle.RestartAlwaysReschedules | components/Waveform.tsx:154-168 | with the animation key as a dependency, every restart sets the full schedule for the new values |
| Lifecycle.EpochOnlyMattersOnSameDeps | components/Waveform.tsx:168 | adding the key changes a commit only when the key changed and no written dependency did |
| Layout.BugPositionX | components/Waveform.tsx:138 | the bug's x is the middle of the bug tick's cell |
| Layout.VisibleCount | components/Waveform.tsx:144-146 | the count is the number of positions among the names whose row is shown |
| Layout.VisibleBeforeData | components/Waveform.tsx:144-146 | the count is how many of CLK, RESET_N and VALID are shown |
| Layout.HighlightCenterY | components/Waveform.tsx:149-152 | the highlight's y is the middle of the DATA row, below the shown rows before it |
| Layout.HighlightPositions | components/Waveform.tsx:144-152 | with every row shown the highlight is 188 px down; with the three rows above DATA hidden, 20 px |
| Layout.VisibleCountToggle | components/Waveform.tsx:101-107 | toggling a name changes the shown count by its number of occurrences, up when showing, down when hiding |
| Layout.HighlightFollowsToggles | components/Waveform.tsx:144-152 | hiding a row above DATA lifts the highlight by 56 px, showing one lowers it as much, toggling DATA leaves it; it stays within the four rows |
| Layout.AnimationPaused | components/Waveform.tsx:191-192 | the animation is frozen exactly while manually paused or while DETECTED or CORRECTING |
| Layout.BugPauseEndsByItself | components/Waveform.tsx:154-166 | a freeze caused by the bug always has a timer running; a manual pause has none |
| Layout.BugMarker | components/Waveform.tsx:301-331 | a marker shows exactly while DATA is shown and the state is DETECTED or CORRECTING, fading exactly in CORRECTING; its text is "BUG DETECTED" in DETECTED and "BUG CORRECTED" in CORRECTING |
| Layout.MarkerOnlyWhilePaused | components/Waveform.tsx:191-192 | a marker only ever stands over a frozen trace |
| Traces.InitialSignals | components/Waveform.tsx:170-175 | one row per template in declaration order, each traced from its 100 bits drawn twice |
| Traces.FinalSignalList | components/Waveform.tsx:194-199 | DATA is replaced by the corrected row exactly in CORRECTING and FIXED; other rows stay as they are |
| Traces.RowOverlays | components/Waveform.tsx:170-175 | DATA's overlay holds a glyph at the bug tick and at the same tick of the repeat when its VALID draw is high, and nothing otherwise; other rows have none |
| Traces.CorrectedTraceUnbroken | components/Waveform.tsx:177-187 | the corrected DATA row has no overlay and is one unbroken trace at the two bit levels |
| Traces.DisplayedRows | components/Waveform.tsx:170-199 | the four rows shown in each state: CLK, RESET_N, VALID as generated; DATA as generated until DETECTED, corrected from CORRECTING on |
| Widget.Waveform.constructor | components/Waveform.tsx:86-99 | the mounted widget: IDLE, tick 55, text "55", key 0, playing, all rows shown, the IDLE timer set |
| Widget.Waveform.CommitEffect | components/Waveform.tsx:154-168 | the commit reconciles the pending timer against the effect's previous dependencies |
| Widget.Waveform.SetManualBugTick | components/Waveform.tsx:230 | editing the field changes its text and nothing else |
| Widget.Waveform.SignalClick | components/Waveform.tsx:101-107 | a row click flips that row's visibility and nothing else; the timer runs on |
| Widget.Waveform.InjectBug | components/Waveform.tsx:109-119 | injected exactly when the text is accepted: the new tick, a new key, IDLE, playing, the full IDLE timer; otherwise nothing changes |
| Widget.Waveform.RestartAt | components/Waveform.tsx:112-115 | the accepted branch: the new tick, the next key, IDLE and playing, and the full IDLE timer |
| Widget.Waveform.ContainerClick | components/Waveform.tsx:121-128 | flips the pause; resuming restarts at IDLE with a new key and the full timer, pausing cancels the timer |
| Widget.Waveform.Elapse | components/Waveform.tsx:154-166 | time runs down the pending timer; when it runs out the state advances one step and the next timer is set |
| Widget.ReinjectionScenario | components/Waveform.tsx:109-119 | with the dependency list that includes the animation key, re-injecting tick 55 three seconds after mounting sets the full 6.5 s IDLE timer again |
| Widget.CourseAfterReinjection | components/Waveform.tsx:157-166 | from that IDLE timer, letting time pass reaches FIXED with no timer left |

## Left out

- Rendering: the JSX layout, CSS classes, colours, the ruler, the scanner's CSS animation and the scroll-reveal hooks are not modelled. `useScrollAnimation` (hooks/useScrollAnimation) is not part of this model.
- The `alert` on a rejected tick is the `Rejected` outcome of `Widget.Waveform.InjectBug`; the dialog itself is I/O.
- `Math.random()` is not modelled as a generator: each draw is a boolean coin passed in (`Signals.Coins`), so every property holds for every outcome of the draws.
- `setTimeout`, `clearTimeout` and the clock are modelled by the pending timer and `Widget.Waveform.Elapse`; real time and the event loop's ordering are left out.
- `useMemo` caching is not modelled: the traces are functions of the bug tick and the coins. A new memo run (a new bug tick) stands for new coins.
- Lifecycle.BugTimeMs: computes `bugTime * 1000` in exact integer milliseconds; the source computes it in floating point seconds, which can be off by a rounding error.
- Layout.HighlightCenterY: a hidden row is taken to occupy no height, as the count of visible rows above DATA assumes; the widget's CSS for hidden rows is not modelled.
- The message box's `- 45` px offset above the highlight is not modelled; `Layout.BugMarker` states only which marker and text are shown.
- Bits are the datatype `Bit` rather than one-character strings; the source's rules only ever produce `'0'`, `'1'` and `'X'`.
- `Widget.Waveform` models the corrected effect dependencies (with the animation key); the dependencies as written are modelled in `Lifecycle.SourceDeps` (see Findings).
- Widget.Waveform.CommitEffect: reconciles against the dependency list with the animation key; the list as written (line 168) omits it, see Findings.
- Widget.Waveform.InjectBug: the full IDLE timer it promises after re-injecting the current tick while IDLE and playing comes from the corrected dependency list; as written the older timer stays.
- Widget.Waveform.RestartAt: the same corrected re-arm as InjectBug.
- Widget.ReinjectionScenario: shows the corrected dependency list; as written the second injection keeps the 3.5 s timer (`Lifecycle.StaleTimerAfterReinjection`).
- Keyboard activation of a row label (Enter or space) calls the same handler as a click and is covered by `Widget.Waveform.SignalClick`.

## Findings

| source | as written | input that shows it | evidently intended | confidence | as-written member | corrected member |
|---|---|---|---|---|---|---|
| components/Waveform.tsx:154-168 | the lifecycle effect depends on `[bugState, bugTime, isManuallyPaused]` only, so a restart that changes none of them (re-injecting the current tick while IDLE and playing) keeps the old IDLE timer while the scanner animation restarts | mount (tick 55, timer 6.5 s), wait 3 s, inject "55": the old timer fires 3.5 s later, before the restarted scanner reaches tick 55 | every restart (new animation key) re-arms the full IDLE timer so DETECTED coincides with the scanner reaching the bug | not executed | Lifecycle.StaleTimerAfterReinjection | Lifecycle.RestartAlwaysReschedules |
