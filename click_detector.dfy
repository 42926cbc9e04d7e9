/** The click log of `MouseClickHandler`: every left-button press is recorded
    at the end of a list of positions, and nothing else touches the list.
    The console messages printed on each press are not modelled. */
module MouseClickDetector {
  import opened Events

  /** The log after one event: a press adds its position at the end, every
      other event leaves the log as it was. */
  function AfterClick(log: seq<Point>, e: Event): (r: seq<Point>)
    ensures log <= r
    ensures |r| == if e.LButtonDown? then |log| + 1 else |log|
    ensures e.LButtonDown? ==> r[|log|] == Point(e.x, e.y)
  {
    if e.LButtonDown? then log + [Point(e.x, e.y)] else log
  }

  /** The log after a sequence of events, delivered in order. */
  function Replay(log: seq<Point>, events: seq<Event>): (r: seq<Point>)
    ensures log <= r
    ensures |r| <= |log| + |events|
    decreases |events|
  {
    if events == [] then log else Replay(AfterClick(log, events[0]), events[1..])
  }

  /** The positions of the presses among `events`, in the order they occur. */
  function Presses(events: seq<Event>): (r: seq<Point>)
    ensures |r| <= |events|
    ensures forall p :: p in r ==> LButtonDown(p.x, p.y) in events
    ensures forall e :: e in events && e.LButtonDown? ==> Position(e) in r
    decreases |events|
  {
    if events == [] then []
    else
      var rest := Presses(events[1..]);
      assert forall e :: e in events[1..] ==> e in events;
      assert forall e :: e in events ==> e == events[0] || e in events[1..];
      if events[0].LButtonDown? then [Position(events[0])] + rest else rest
  }

  /** The presses of two consecutive batches are those of the first followed by
      those of the second. */
  lemma {:induction false} PressesConcat(a: seq<Event>, b: seq<Event>)
    ensures Presses(a + b) == Presses(a) + Presses(b)
    decreases |a|
  {
    if a == [] {
      assert a + b == b;
    } else {
      assert (a + b)[0] == a[0];
      assert (a + b)[1..] == a[1..] + b;
      PressesConcat(a[1..], b);
    }
  }

  /** Replaying any events appends exactly their presses, in order, to the log
      that was there: earlier entries are never changed, and the log grows by
      the number of presses. */
  lemma {:induction false} ReplayAppendsPresses(log: seq<Point>, events: seq<Event>)
    ensures Replay(log, events) == log + Presses(events)
    decreases |events|
  {
    if events != [] {
      ReplayAppendsPresses(AfterClick(log, events[0]), events[1..]);
      if events[0].LButtonDown? {
        assert log + [Position(events[0])] + Presses(events[1..])
            == log + ([Position(events[0])] + Presses(events[1..]));
      }
    }
  }

  /** The object whose `handle_click` method is registered as the window's
      mouse callback. */
  class MouseClickHandler {
    var coordinates: seq<Point>

    constructor ()
      ensures coordinates == []
    {
      coordinates := [];
    }

    /** Handles one mouse event. */
    method HandleClick(e: Event)
      modifies this
      ensures coordinates == AfterClick(old(coordinates), e)
      ensures e.LButtonDown? ==> coordinates == old(coordinates) + [Point(e.x, e.y)]
      ensures !e.LButtonDown? ==> coordinates == old(coordinates)
    {
      if e.LButtonDown? {
        coordinates := coordinates + [Point(e.x, e.y)];
      }
    }
  }
}
