# Shawarma health bar — a Dafny model

The restaurant page shows a "shawarma health bar": a progress bar that empties
over the daily service window (11:30 to 22:00, Montreal time), a status label
chosen from percentage bands, and a message saying when the restaurant opens
or how long is left. The bar is refreshed once at construction and then every
minute by an interval timer, which `destroy` cancels.

This project models that component (`ShawarmaHealthBar` in `src/script.ts`):

- `Freshness` — the calculation inside `updateHealthBar`, as a pure function
  `Compute` from minute of the day to a `Reading` record: an exact `real`
  percentage, a `Status` and a `TimeDisplay` (`OpensIn(h, m)`,
  `OpensTomorrow`, `Left(h, m)`). Its contract pins down the three branches and the band edges;
  its lemmas state monotonicity, the unreachable clamp and concrete scenarios.
- `TimeText` — the text written into the page: the status labels and the
  time message, with a parser proved to invert the rendering.
- `ShawarmaHealthBar` — one update cycle (which surfaces get written, and
  with what, including the pulse cue), building the presenter and `destroy`
  over a model of the scheduler's live interval handles.
- `Wrappers` — `Option`, for nullable elements and the nullable timer handle.

The clock is an input: an update cycle takes the hour and minute the
Montreal-time clock reports. The scheduler is an input too: the handle that
`setInterval` returns is a parameter (positive and not already live, as the
HTML standard's timer handles are), and the scheduler's state is the set of
live handles.

At minute 1005 (16:45) the percentage is exactly 50; the bands use strict
`>` comparisons, so the label is "Almost Gone!", the lower band. The model
follows the code here.

## Model

| member | source | states |
|---|---|---|
| Freshness.MinuteOfDay | src/script.ts:197-200 | for an hour in [0,24) and a minute in [0,60) the minute of the day lies in [0,1440), and division and remainder by 60 give the hour and minute back |
| Freshness.SplitHoursMinutes | src/script.ts:217-218 | the floor-divided hours and the remainder minutes recombine to the duration, with minutes below 60 |
| Freshness.Band | src/script.ts:230-240 | the in-window band selection only yields window labels, never the initial label or "Opening Soon!" |
| Freshness.Compute | src/script.ts:209-246 | never the initial "Fresh & Ready!" status and always a percentage in [0,100]; before 11:30: 100, "Opening Soon!", and an opens-in message whose hours and minutes (below 60) add up to the time until 11:30; from 22:00 on: 0, "Sold Out!" and the fixed opens-tomorrow message; inside the window: the share of the window still ahead times 100, in (0,100], the status of an independent by-minute table (up to 14:07 "Fresh & Plenty!", up to 16:44 "Getting Low", up to 19:22 "Almost Gone!", then "Last Pieces!"), and a time-left message whose hours (at most 10) and minutes (below 60) add up to the time until 22:00 |
| Freshness.ClampAndInnerSoldOutUnreachable | src/script.ts:226-240 | inside the window the unclamped percentage is already positive, so the `Math.max(0, …)` clamp and the inner "Sold Out!" band never take effect |
| Freshness.OpeningMinuteIsFull | src/script.ts:213-245 | at exactly 11:30 (opening is inclusive) the bar is at 100 with "Fresh & Plenty!" and 10h 30m left |
| Freshness.HalfwayIsAlmostGone | src/script.ts:228-235 | at 16:45 the percentage is exactly 50 and, the bands being strict, the status is "Almost Gone!" |
| Freshness.PercentageDecreasingInWindow | src/script.ts:226-228 | inside the window a later minute has a strictly smaller percentage |
| Freshness.PercentageNonIncreasing | src/script.ts:213-228 | over any minutes of the day, a later minute never has a larger percentage |
| Freshness.Scenarios | src/script.ts:213-224 | midnight gives opens in 11 h 30 min, 10:00 gives opens in 1 h 30 min, 22:00 gives 0, "Sold Out!" and opens tomorrow |
| TimeText.Decimal | src/script.ts:219 | the decimal text of a count is canonical: non-empty, all digits, with no leading zero |
| TimeText.DecimalRoundTrip | src/script.ts:219 | reading the decimal text back yields the count |
| TimeText.StatusLabel | src/script.ts:210-239 | each status has its own label text: reading the label back yields the status |
| TimeText.HoursMinutesRoundTrip | src/script.ts:245 | the "<h>h <m>" text of a duration determines its hours and minutes |
| TimeText.Render | src/script.ts:219-245 | the three messages ("Opens in <h>h <m>m", "Opens tomorrow at 11:30 AM", "<h>h <m>m left") each read back by the parser as the display they came from, so rendering loses nothing |
| TimeText.HoursMinutesOnlyCanonical | src/script.ts:243-245 | the only text read as a given hours-and-minutes pair is its own "<h>h <m>" rendering: numbers are non-empty and never zero-padded |
| TimeText.ParseTimeExactlyRendered | src/script.ts:217-245 | a text reads back as a display exactly when it is that display's message, so a contract stated through the parser pins the message character for character |
| TimeText.DecimalOfParse | src/script.ts:219 | every non-empty digit string without a leading zero is the decimal text of its own value |
| TimeText.RenderInjective | src/script.ts:219-245 | two time messages are equal exactly when the displays are equal |
| TimeText.RenderScenarios | src/script.ts:219-245 | concrete texts "Opens in 1h 30m", "Opens in 11h 30m", "10h 30m left" |
| ShawarmaHealthBar.Pulse | src/script.ts:262 | the pulse cue is on exactly for 0 < p <= 25, which is exactly the percentages the bands label "Last Pieces!" |
| ShawarmaHealthBar.PulseOnlyForLastPieces | src/script.ts:262-266 | the pulse cue is on exactly from 19:23 up to 22:00, which is exactly when the status is "Last Pieces!"; never before opening or after closing |
| ShawarmaHealthBar.Update | src/script.ts:194-266 | a cycle writes something exactly when both the fill and the time elements exist; then the width is the computed percentage (in [0,100]), the time text reads back as the computed time display (which, the parser accepting only rendered text, makes it exactly that display's message), the label is written exactly when its element exists and reads back as the computed status (never "Fresh & Ready!"), and the pulse is on exactly from 19:23 to 22:00 |
| ShawarmaHealthBar.Construct | src/script.ts:173-185 | building the presenter runs one update cycle first and then holds a truthy handle for a newly live interval |
| ShawarmaHealthBar.Destroy | src/script.ts:269-274 | with the handle test read as JavaScript truthiness (`Armed`: null and 0 are falsy): after tear-down no truthy handle is held; a truthy handle's interval is no longer live; with no truthy handle nothing changes; the found elements are kept |
| ShawarmaHealthBar.DestroyIdempotent | src/script.ts:269-274 | calling tear-down twice is the same as calling it once |
| ShawarmaHealthBar.ConstructThenDestroy | src/script.ts:179-185 | tearing down a freshly built presenter releases exactly its own interval and restores the scheduler's live set |

## Left out

- The Montreal time-zone conversion (`getMontrealTime`, via `toLocaleString`): a platform library call; the model takes the hour and minute it yields as inputs.
- Timer timing: when `setInterval` fires is external; the model keeps only which interval handles are live.
- DOM writes as such: the CSS width string `${percentage}%`, the `textContent` assignments, the `.health-bar-label` lookup (modelled only as "found or not" per cycle) and the injected keyframes style element. The model records the values that would be written.
- Floating-point arithmetic: the percentage is an exact `real`. The page computes `100 - (elapsed / 630) * 100` in doubles, which can differ in the last bits, but the band edges an integer minute can reach agree: 315/630 is exactly one half, and the 75 and 25 percent edges fall on half minutes that are never reached.
- The menu dashboard, the gallery, navigation, smooth scrolling, fade-in observation and parallax: DOM event wiring over static tables, with no computed behaviour beyond the DOM mutation itself.
