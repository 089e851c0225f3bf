/**
  The freshness calculation of the shawarma health bar: a pure function from the
  current minute of the day (Montreal local time) to the percentage shown in the
  bar, the status label and the time message.

  The restaurant's daily service window runs from 11:30 (minute 690, inclusive)
  to 22:00 (minute 1320, exclusive). Before the window the bar is full and says
  when it opens; from closing time on it is empty and says it opens tomorrow;
  inside the window the percentage decays linearly from 100 to 0.

  The percentage is an exact `real`; see the README for how that relates to the
  floating-point arithmetic of the page.
*/
module Freshness {

  /** 11:30, the first minute of the service window. */
  const OpenMinute: int := 11 * 60 + 30
  /** 22:00, the first minute after the service window. */
  const CloseMinute: int := 22 * 60
  /** Length of the service window in minutes (630). */
  const WindowLength: int := CloseMinute - OpenMinute
  const MinutesPerDay: int := 24 * 60

  /** The status labels the health bar can carry. `FreshAndReady` is the value
      the status variable starts with before any branch assigns it. */
  datatype Status =
    | FreshAndReady
    | OpeningSoon
    | FreshAndPlenty
    | GettingLow
    | AlmostGone
    | LastPieces
    | SoldOut

  /** The secondary message: time until opening, the fixed "opens tomorrow"
      text, or the time left until closing. */
  datatype TimeDisplay =
    | OpensIn(hours: nat, minutes: nat)
    | OpensTomorrow
    | Left(hours: nat, minutes: nat)

  /** What one update cycle derives from the clock. */
  datatype Reading = Reading(percentage: real, status: Status, time: TimeDisplay)

  /** Minute of the day from the hour and minute the clock reports. */
  function MinuteOfDay(hour: int, minute: int): (t: int)
    requires 0 <= hour < 24 && 0 <= minute < 60
    ensures 0 <= t < MinutesPerDay
    ensures t / 60 == hour && t % 60 == minute
  {
    hour * 60 + minute
  }

  /** Whole hours and leftover minutes of a duration. The page uses
      `Math.floor(d / 60)` and `d % 60`; both operands are non-negative here,
      so they agree with Dafny's Euclidean division. */
  function SplitHoursMinutes(d: nat): (hm: (nat, nat))
    ensures hm.0 * 60 + hm.1 == d
    ensures hm.1 < 60
  {
    (d / 60, d % 60)
  }

  /** `Math.max` on two numbers. */
  function Max(a: real, b: real): real {
    if a >= b then a else b
  }

  /** The status bands of the service window, with strict lower bounds. */
  function Band(p: real): (s: Status)
    ensures s != FreshAndReady && s != OpeningSoon
  {
    if p > 75.0 then FreshAndPlenty
    else if p > 50.0 then GettingLow
    else if p > 25.0 then AlmostGone
    else if p > 0.0 then LastPieces
    else SoldOut
  }

  /** Status inside the service window, stated by minute instead of by
      percentage: the band edges at 75 and 25 percent fall on half minutes
      (847.5 and 1162.5), the edge at 50 percent falls on minute 1005 exactly,
      which belongs to the lower band. */
  function WindowStatusByMinute(t: int): Status {
    if t <= 847 then FreshAndPlenty
    else if t < 1005 then GettingLow
    else if t <= 1162 then AlmostGone
    else LastPieces
  }

  /** The freshness shown at minute `t` of the day. Before opening the bar is
      full and counts down to 11:30; from closing time on it is empty; inside
      the window the percentage is the share of the window still ahead, the
      status follows the by-minute bands and the message counts down to 22:00.
      The initial "Fresh & Ready!" status is never the result. */
  function Compute(t: int): (r: Reading)
    ensures r.status != FreshAndReady
    ensures 0.0 <= r.percentage <= 100.0
    ensures t < OpenMinute ==>
      && r.percentage == 100.0
      && r.status == OpeningSoon
      && r.time.OpensIn?
      && r.time.hours * 60 + r.time.minutes == OpenMinute - t
      && r.time.minutes < 60
    ensures t >= CloseMinute ==> r == Reading(0.0, SoldOut, OpensTomorrow)
    ensures OpenMinute <= t < CloseMinute ==>
      && r.percentage == (CloseMinute - t) as real * 100.0 / WindowLength as real
      && 0.0 < r.percentage <= 100.0
      && r.status == WindowStatusByMinute(t)
      && r.time.Left?
      && r.time.hours * 60 + r.time.minutes == CloseMinute - t
      && r.time.minutes < 60
      && r.time.hours <= 10
  {
    if t < OpenMinute then
      var (h, m) := SplitHoursMinutes(OpenMinute - t);
      Reading(100.0, OpeningSoon, OpensIn(h, m))
    else if t >= CloseMinute then
      Reading(0.0, SoldOut, OpensTomorrow)
    else
      var elapsed := t - OpenMinute;
      var p := Max(0.0, 100.0 - (elapsed as real / WindowLength as real) * 100.0);
      var (h, m) := SplitHoursMinutes(CloseMinute - t);
      Reading(p, Band(p), Left(h, m))
  }

  /** The `Math.max(0, ...)` clamp and the inner "Sold Out!" band can never
      take effect inside the window. */
  lemma ClampAndInnerSoldOutUnreachable(t: int)
    requires OpenMinute <= t < CloseMinute
    ensures 100.0 - ((t - OpenMinute) as real / WindowLength as real) * 100.0 > 0.0
    ensures Band(100.0 - ((t - OpenMinute) as real / WindowLength as real) * 100.0) != SoldOut
  {
  }

  lemma OpeningMinuteIsFull()
    ensures Compute(OpenMinute).percentage == 100.0
    ensures Compute(OpenMinute).status == FreshAndPlenty
    ensures Compute(OpenMinute).time == Left(10, 30)
  {
  }

  /** Minute 1005 is exactly half way: 50 percent is not above 50, so the
      label is the lower band's. */
  lemma HalfwayIsAlmostGone()
    ensures Compute(1005).percentage == 50.0
    ensures Compute(1005).status == AlmostGone
  {
  }

  lemma PercentageDecreasingInWindow(a: int, b: int)
    requires OpenMinute <= a < b < CloseMinute
    ensures Compute(b).percentage < Compute(a).percentage
  {
  }

  /** Over the whole day, a later minute never shows more freshness. */
  lemma PercentageNonIncreasing(a: int, b: int)
    requires a <= b
    ensures Compute(b).percentage <= Compute(a).percentage
  {
  }

  lemma Scenarios()
    ensures Compute(0) == Reading(100.0, OpeningSoon, OpensIn(11, 30))
    ensures Compute(600) == Reading(100.0, OpeningSoon, OpensIn(1, 30))
    ensures Compute(1320) == Reading(0.0, SoldOut, OpensTomorrow)
  {
  }
}
