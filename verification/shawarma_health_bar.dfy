/**
  The health-bar presenter: the display surfaces it found when it was built,
  one update cycle (what it writes to those surfaces), and the lifecycle of
  its recurring timer.

  The page's timer scheduler is modelled as the set of interval handles that
  are still live: an interval keeps firing while its handle is in that set,
  and clearing the interval removes it.
*/
module ShawarmaHealthBar {
  import opened Wrappers
  import opened Freshness
  import opened TimeText

  /** The presenter's retained state: whether the fill and time elements were
      found when it was built, and the held interval handle (null as None). */
  datatype Bar = Bar(fillFound: bool, timeFound: bool, handle: Option<int>)

  /** The presenter together with the scheduler's live interval handles. */
  datatype Session = Session(bar: Bar, live: set<int>)

  /** What one update cycle writes: the fill width in percent, the status
      label text (None when the label element is absent and nothing is
      written), the time text, and whether the pulse animation is set. */
  datatype Writes = Writes(width: real, statusText: Option<string>, timeText: string, pulse: bool)

  /** A held handle counts only when it is truthy: null and 0 are not. */
  predicate Armed(handle: Option<int>) {
    handle.Some? && handle.value != 0
  }

  /** The pulse cue is on for a low but non-zero percentage, which is
      exactly the band labelled "Last Pieces!". */
  predicate Pulse(p: real)
    ensures Pulse(p) <==> Band(p) == LastPieces
  {
    p <= 25.0 && p > 0.0
  }

  /** The pulse cue is on exactly in the last band of the service window,
      from 19:23 up to closing; never before opening nor after closing. */
  lemma PulseOnlyForLastPieces(t: int)
    ensures Pulse(Compute(t).percentage) <==> 1163 <= t < CloseMinute
    ensures Pulse(Compute(t).percentage) <==> Compute(t).status == LastPieces
  {
  }

  /** One update cycle at the given clock reading. */
  function Update(bar: Bar, labelFound: bool, hour: int, minute: int): (w: Option<Writes>)
    requires 0 <= hour < 24 && 0 <= minute < 60
    ensures w.Some? <==> bar.fillFound && bar.timeFound
    ensures w.Some? ==> (w.value.statusText.Some? <==> labelFound)
    // The next two clauses are corollaries of the one pinning the written
    // values to `Compute`, stated on their own for the reader.
    ensures w.Some? ==> 0.0 <= w.value.width <= 100.0
    ensures w.Some? && w.value.statusText.Some? ==> w.value.statusText.value != StatusLabel(FreshAndReady)
    ensures w.Some? ==> (w.value.pulse <==> 1163 <= hour * 60 + minute < CloseMinute)
    ensures w.Some? ==>
      var f := Compute(MinuteOfDay(hour, minute));
      && w.value.width == f.percentage
      && ParseTime(w.value.timeText) == Some(f.time)
      && (w.value.statusText.Some? ==> ParseStatusLabel(w.value.statusText.value) == Some(f.status))
  {
    if !bar.fillFound || !bar.timeFound then None
    else
      var t := MinuteOfDay(hour, minute);
      var f := Compute(t);
      PulseOnlyForLastPieces(t);
      var statusText := if labelFound then Some(StatusLabel(f.status)) else None;
      Some(Writes(f.percentage, statusText, Render(f.time), Pulse(f.percentage)))
  }

  /** Building the presenter: it runs one update cycle at once, then arms a
      recurring interval whose handle `id` the scheduler hands out. */
  function Construct(fillFound: bool, timeFound: bool, labelFound: bool, hour: int, minute: int,
                     live: set<int>, id: int): (r: (Session, Option<Writes>))
    requires 0 <= hour < 24 && 0 <= minute < 60
    requires id > 0 && id !in live
    ensures Armed(r.0.bar.handle) && r.0.bar.handle.value == id
    ensures r.0.live == live + {id}
    ensures r.0.bar.fillFound == fillFound && r.0.bar.timeFound == timeFound
    ensures r.1 == Update(Bar(fillFound, timeFound, None), labelFound, hour, minute)
  {
    var bar := Bar(fillFound, timeFound, None);
    var first := Update(bar, labelFound, hour, minute);
    (Session(bar.(handle := Some(id)), live + {id}), first)
  }

  /** Tear-down: clears the held interval and forgets the handle. */
  function Destroy(s: Session): (r: Session)
    ensures !Armed(r.bar.handle)
    ensures r.bar.fillFound == s.bar.fillFound && r.bar.timeFound == s.bar.timeFound
    ensures Armed(s.bar.handle) ==> r.bar.handle.None? && r.live == s.live - {s.bar.handle.value}
    ensures !Armed(s.bar.handle) ==> r == s
  {
    match s.bar.handle
    case Some(id) =>
      if id != 0 then Session(s.bar.(handle := None), s.live - {id}) else s
    case None => s
  }

  /** A second tear-down changes nothing. */
  lemma DestroyIdempotent(s: Session)
    ensures Destroy(Destroy(s)) == Destroy(s)
  {
  }

  /** Tearing down a freshly built presenter releases exactly the interval it
      armed, so no further cycle fires, and leaves every other interval live. */
  lemma ConstructThenDestroy(fillFound: bool, timeFound: bool, labelFound: bool, hour: int, minute: int,
                             live: set<int>, id: int)
    requires 0 <= hour < 24 && 0 <= minute < 60
    requires id > 0 && id !in live
    ensures Destroy(Construct(fillFound, timeFound, labelFound, hour, minute, live, id).0)
            == Session(Bar(fillFound, timeFound, None), live)
    ensures id !in Destroy(Construct(fillFound, timeFound, labelFound, hour, minute, live, id).0).live
  {
  }
}
