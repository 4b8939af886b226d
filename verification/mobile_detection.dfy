/**
  The mobile-detection hook: a flag that is false until the first check, then
  holds exactly when the window is narrower than the breakpoint (768 by
  default), re-evaluated on every resize and whenever the breakpoint changes.
  Listener registration and removal are host I/O and are left out; the width is
  the input of each event.
 */
module MobileDetection {
  import opened Common

  const DefaultBreakpoint: int := 768

  datatype Detection = Detection(breakpoint: int, isMobile: bool)

  /** The hook's state on first render, before its effect has run. */
  function Initial(breakpoint: Option<int>): (d: Detection)
    ensures !d.isMobile
    ensures breakpoint.None? ==> d.breakpoint == DefaultBreakpoint
    ensures breakpoint.Some? ==> d.breakpoint == breakpoint.value
  {
    Detection(breakpoint.OrDefault(DefaultBreakpoint), false)
  }

  /** `checkIfMobile`: strictly narrower than the breakpoint is mobile. */
  function Check(d: Detection, width: int): (r: Detection)
    ensures r.breakpoint == d.breakpoint
    ensures r.isMobile <==> width < d.breakpoint
    ensures width == d.breakpoint ==> !r.isMobile
  {
    d.(isMobile := width < d.breakpoint)
  }

  /** A window resize, or a re-render that passes the hook a (possibly new) breakpoint. */
  datatype Event = Resize(width: int) | Rerender(breakpoint: Option<int>, width: int)

  /** The effect depends on the breakpoint only: a re-render with the same breakpoint checks nothing. */
  function Step(d: Detection, e: Event): (r: Detection)
    ensures e.Resize? ==> r.breakpoint == d.breakpoint && (r.isMobile <==> e.width < d.breakpoint)
    ensures e.Rerender? && e.breakpoint.OrDefault(DefaultBreakpoint) == d.breakpoint ==> r == d
    ensures e.Rerender? && e.breakpoint.OrDefault(DefaultBreakpoint) != d.breakpoint ==>
              r.breakpoint == e.breakpoint.OrDefault(DefaultBreakpoint) && (r.isMobile <==> e.width < r.breakpoint)
  {
    match e
    case Resize(w) => Check(d, w)
    case Rerender(b, w) =>
      var nb := b.OrDefault(DefaultBreakpoint);
      if nb == d.breakpoint then d else Check(d.(breakpoint := nb), w)
  }

  /** Mounting: the effect runs once against the current width, before any resize. */
  function Mount(breakpoint: Option<int>, width: int): (d: Detection)
    ensures d.breakpoint == breakpoint.OrDefault(DefaultBreakpoint)
    ensures d.isMobile <==> width < d.breakpoint
    ensures breakpoint.None? ==> (d.isMobile <==> width < 768)
  {
    Check(Initial(breakpoint), width)
  }

  function Run(d: Detection, events: seq<Event>): Detection
    decreases |events|
  {
    if events == [] then d else Run(Step(d, events[0]), events[1..])
  }

  predicate AllResizes(events: seq<Event>) {
    forall i :: 0 <= i < |events| ==> events[i].Resize?
  }

  /** After a run of resizes the flag reflects the last width seen, against an unchanged breakpoint. */
  lemma {:induction false} RunFollowsLastResize(d: Detection, events: seq<Event>)
    requires AllResizes(events)
    ensures Run(d, events).breakpoint == d.breakpoint
    ensures events == [] ==> Run(d, events) == d
    ensures events != [] ==> (Run(d, events).isMobile <==> events[|events| - 1].width < d.breakpoint)
    decreases |events|
  {
    if events != [] {
      RunFollowsLastResize(Step(d, events[0]), events[1..]);
    }
  }

  /** The hook's own test scenarios, and a width exactly at the breakpoint. */
  lemma MountExamples()
    ensures Mount(None, 500).isMobile
    ensures !Mount(None, 1024).isMobile
    ensures !Mount(None, 768).isMobile
    ensures Mount(Some(1000), 900).isMobile
  {
  }

  /** Resizing flips the flag in either direction. */
  lemma ResizeExamples()
    ensures !Mount(None, 1024).isMobile && Run(Mount(None, 1024), [Resize(500)]).isMobile
    ensures Mount(None, 500).isMobile && !Run(Mount(None, 500), [Resize(1024)]).isMobile
  {
    RunFollowsLastResize(Mount(None, 1024), [Resize(500)]);
    RunFollowsLastResize(Mount(None, 500), [Resize(1024)]);
  }
}
