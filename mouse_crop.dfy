/** The drag-to-crop selection of `MouseCrop`: a press anchors a selection, moves
    while the button is held track its size, and the release fixes the second
    corner and asks for the crop.

    The image itself, the overlay drawn on it and the windows it is shown in are
    not modelled; the crop step yields the index window it would slice out. */
module MouseCropping {
  import opened Events

  datatype Option<T> = None | Some(value: T)

  /** The index window `image[top:bottom, left:right]`: rows `top` up to but not
      including `bottom`, columns `left` up to but not including `right`. */
  datatype Rect = Rect(top: int, bottom: int, left: int, right: int)
  {
    function Rows(): int { bottom - top }
    function Columns(): int { right - left }
  }

  /** What the crop step does: show the given window, or ask the user to select
      a region first. */
  datatype CropOutcome = Cropped(window: Rect) | PleaseSelect

  /** The four fields of a `MouseCrop` object, as a value. */
  datatype CropState = CropState(coordinates: seq<Point>, width: int, height: int, cropping: bool)

  /** The state a freshly constructed object starts in. */
  const Initial := CropState([], 0, 0, false)

  /** What holds in every state the handler can reach: a drag in progress is
      exactly the one-anchor state, at most two corners are kept, the sizes are
      never negative, no size is recorded before the first press, and a
      completed selection remembers the distances between its corners. */
  ghost predicate Inv(s: CropState) {
    && |s.coordinates| <= 2
    && (s.cropping <==> |s.coordinates| == 1)
    && s.width >= 0 && s.height >= 0
    && (|s.coordinates| == 0 ==> s.width == 0 && s.height == 0)
    && (|s.coordinates| == 2 ==>
          s.width == Abs(s.coordinates[1].x - s.coordinates[0].x) &&
          s.height == Abs(s.coordinates[1].y - s.coordinates[0].y))
  }

  /** The effect of one event on the state. A press always restarts the
      selection; a move or a release counts only while a drag is in progress;
      everything else is ignored. */
  function Step(s: CropState, e: Event): (t: CropState)
    requires Inv(s)
    ensures Inv(t)
  {
    if e.LButtonDown? then
      s.(coordinates := [Point(e.x, e.y)], cropping := true)
    else if e.MouseMove? && s.cropping then
      s.(width := Abs(e.x - s.coordinates[0].x), height := Abs(e.y - s.coordinates[0].y))
    else if e.LButtonUp? && s.cropping then
      var c := s.coordinates + [Point(e.x, e.y)];
      CropState(c, Abs(c[1].x - c[0].x), Abs(c[1].y - c[0].y), false)
    else
      s
  }

  /** The state after a sequence of events, delivered in order. */
  function Run(s: CropState, events: seq<Event>): (t: CropState)
    requires Inv(s)
    ensures Inv(t)
    decreases |events|
  {
    if events == [] then s else Run(Step(s, events[0]), events[1..])
  }

  /** The crop step: a window anchored at the first corner, `height` rows down
      and `width` columns across, but only when both sizes are positive. */
  function CropRegion(s: CropState): (r: CropOutcome)
    requires Inv(s)
    ensures r.Cropped? <==> s.width > 0 && s.height > 0
    ensures r.Cropped? ==>
              |s.coordinates| > 0 &&
              r.window.top == s.coordinates[0].y && r.window.left == s.coordinates[0].x &&
              r.window.Rows() == s.height && r.window.Columns() == s.width
  {
    if s.width > 0 && s.height > 0 then
      var anchor := s.coordinates[0];
      Cropped(Rect(anchor.y, anchor.y + s.height, anchor.x, anchor.x + s.width))
    else
      PleaseSelect
  }

  function Min(a: int, b: int): int { if a <= b then a else b }
  function Max(a: int, b: int): int { if a <= b then b else a }

  /** The half-open window between two opposite corners, whichever order they
      come in: the selected window, from the smaller to the larger coordinate on
      each axis. (The outline drawn at the corners includes both of them and is
      two pixels thick; it is not modelled.) */
  function Spanned(p: Point, q: Point): (r: Rect)
    ensures r.top <= r.bottom && r.left <= r.right
    ensures (r.top, r.bottom) == (p.y, q.y) || (r.top, r.bottom) == (q.y, p.y)
    ensures (r.left, r.right) == (p.x, q.x) || (r.left, r.right) == (q.x, p.x)
  {
    Rect(Min(p.y, q.y), Max(p.y, q.y), Min(p.x, q.x), Max(p.x, q.x))
  }

  /** True of event sequences made only of pointer moves. */
  ghost predicate AllMoves(events: seq<Event>) {
    forall i :: 0 <= i < |events| ==> events[i].MouseMove?
  }

  /** The object whose `handle_clicks` method is registered as the window's
      mouse callback. */
  class MouseCrop {
    var coordinates: seq<Point>
    var width: int
    var height: int
    var cropping: bool

    function State(): CropState
      reads this
    {
      CropState(coordinates, width, height, cropping)
    }

    ghost predicate Valid()
      reads this
    {
      Inv(State())
    }

    constructor ()
      ensures Valid() && State() == Initial
      ensures coordinates == [] && width == 0 && height == 0 && !cropping
    {
      coordinates := [];
      width := 0;
      height := 0;
      cropping := false;
    }

    /** Handles one mouse event. `crop` is what the crop step produced when this
        event completed a selection, and `None` when the crop step did not run. */
    method HandleClicks(e: Event) returns (crop: Option<CropOutcome>)
      requires Valid()
      modifies this
      ensures Valid()
      ensures State() == Step(old(State()), e)
      // a press restarts the selection at the pressed point and leaves the sizes alone
      ensures e.LButtonDown? ==>
                coordinates == [Point(e.x, e.y)] && cropping &&
                width == old(width) && height == old(height)
      // a move during a drag measures from the anchor and changes nothing else
      ensures e.MouseMove? && old(cropping) ==>
                coordinates == old(coordinates) && cropping &&
                width == Abs(e.x - old(coordinates)[0].x) &&
                height == Abs(e.y - old(coordinates)[0].y)
      // a release during a drag keeps the anchor, adds the second corner and ends the drag
      ensures e.LButtonUp? && old(cropping) ==>
                |coordinates| == 2 && coordinates[0] == old(coordinates)[0] &&
                coordinates[1] == Point(e.x, e.y) && !cropping &&
                width == Abs(coordinates[1].x - coordinates[0].x) &&
                height == Abs(coordinates[1].y - coordinates[0].y)
      // outside a drag, moves and releases are ignored, and so is every other event
      ensures e.Other? || ((e.MouseMove? || e.LButtonUp?) && !old(cropping)) ==>
                State() == old(State())
      // the crop step runs exactly when a release completes a drag, on the new sizes
      ensures crop == if e.LButtonUp? && old(cropping) then Some(CropRegion(State())) else None
    {
      crop := None;
      if e.LButtonDown? {
        coordinates := [Point(e.x, e.y)];
        cropping := true;
      } else if e.MouseMove? && cropping {
        width := Abs(e.x - coordinates[0].x);
        height := Abs(e.y - coordinates[0].y);
      } else if e.LButtonUp? && cropping {
        coordinates := coordinates + [Point(e.x, e.y)];
        cropping := false;
        width := Abs(coordinates[1].x - coordinates[0].x);
        height := Abs(coordinates[1].y - coordinates[0].y);
        var outcome := CropImage();
        crop := Some(outcome);
      }
    }

    /** The crop step on the current selection. */
    method CropImage() returns (outcome: CropOutcome)
      requires Valid()
      ensures outcome == CropRegion(State())
      ensures outcome.Cropped? <==> width > 0 && height > 0
    {
      if width > 0 && height > 0 {
        var y0, x0 := coordinates[0].y, coordinates[0].x;
        outcome := Cropped(Rect(y0, y0 + height, x0, x0 + width));
      } else {
        outcome := PleaseSelect;
      }
    }
  }

  /** Delivering two batches of events one after the other is delivering their
      concatenation. */
  lemma {:induction false} RunConcat(s: CropState, a: seq<Event>, b: seq<Event>)
    requires Inv(s)
    ensures Run(s, a + b) == Run(Run(s, a), b)
    decreases |a|
  {
    if a == [] {
      assert a + b == b;
    } else {
      assert (a + b)[0] == a[0];
      assert (a + b)[1..] == a[1..] + b;
      RunConcat(Step(s, a[0]), a[1..], b);
    }
  }

  /** Pointer moves never change the corners or whether a drag is in progress. */
  lemma {:induction false} MovesKeepSelection(s: CropState, moves: seq<Event>)
    requires Inv(s) && AllMoves(moves)
    ensures Run(s, moves).coordinates == s.coordinates
    ensures Run(s, moves).cropping == s.cropping
    decreases |moves|
  {
    if moves != [] {
      MovesKeepSelection(Step(s, moves[0]), moves[1..]);
    }
  }

  /** A complete gesture: press at `p`, any number of moves, release at `q`.
      Whatever state it starts in, it leaves exactly the corners `p` and `q`,
      no drag in progress and the sizes between them; the crop that follows is
      a window anchored at `p`, and there is one exactly when the two corners
      differ in both coordinates. */
  lemma DragThenRelease(s: CropState, p: Point, moves: seq<Event>, q: Point)
    requires Inv(s) && AllMoves(moves)
    ensures var t := Run(s, [LButtonDown(p.x, p.y)] + moves + [LButtonUp(q.x, q.y)]);
            t.coordinates == [p, q] && !t.cropping &&
            t.width == Abs(q.x - p.x) && t.height == Abs(q.y - p.y) &&
            CropRegion(t) == if p.x != q.x && p.y != q.y
                             then Cropped(Rect(p.y, p.y + Abs(q.y - p.y), p.x, p.x + Abs(q.x - p.x)))
                             else PleaseSelect
  {
    var down, up := [LButtonDown(p.x, p.y)], [LButtonUp(q.x, q.y)];
    RunConcat(s, down + moves, up);
    RunConcat(s, down, moves);
    var anchored := Run(s, down);
    assert anchored == Step(s, LButtonDown(p.x, p.y)) by {
      assert down[1..] == [];
    }
    MovesKeepSelection(anchored, moves);
    var dragged := Run(anchored, moves);
    assert Run(dragged, up) == Step(dragged, LButtonUp(q.x, q.y)) by {
      assert up[1..] == [];
    }
  }

  /** The crop is anchored at the first corner and extends right and down from
      it, so it equals the selected window only when the drag went right and
      down; a drag up or to the left crops a window beside the one selected. */
  lemma CropMatchesSelectionOnlyDownRight(s: CropState, q: Point)
    requires Inv(s) && s.cropping
    ensures var t := Step(s, LButtonUp(q.x, q.y));
            var p := s.coordinates[0];
            CropRegion(t).Cropped? ==>
              (CropRegion(t).window == Spanned(p, q) <==> p.x <= q.x && p.y <= q.y)
  {
  }

  /** A drag from (10, 10) up and left to (4, 4) selects rows and columns 4 to 10
      but crops rows and columns 10 to 16. */
  lemma UpLeftDragExample()
    ensures var t := Run(Initial, [LButtonDown(10, 10), MouseMove(7, 7), LButtonUp(4, 4)]);
            Spanned(Point(10, 10), Point(4, 4)) == Rect(4, 10, 4, 10) &&
            CropRegion(t) == Cropped(Rect(10, 16, 10, 16))
  {
  }

  /** A press keeps the sizes of the previous selection and moves the anchor, so
      a crop taken right after a press (before any move) is a window of the old
      size anchored at the pressed point, or none if the old sizes were not both
      positive. */
  lemma PressKeepsStaleSizes(s: CropState, r: Point)
    requires Inv(s)
    ensures CropRegion(Step(s, LButtonDown(r.x, r.y))) ==
              if s.width > 0 && s.height > 0
              then Cropped(Rect(r.y, r.y + s.height, r.x, r.x + s.width))
              else PleaseSelect
  {
  }
}
