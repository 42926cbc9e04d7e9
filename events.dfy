/** Mouse events as the window library delivers them to a callback.

    The library passes an integer event code and the pointer position; only
    three codes are ever inspected by the handlers, so every other code is
    folded into `Other`. The `flags` and `params` callback arguments are
    never read and are not modelled. */
module Events {

  /** A pixel position, the `(x, y)` tuple the handlers store. */
  datatype Point = Point(x: int, y: int)

  datatype Event =
    | LButtonDown(x: int, y: int)
    | MouseMove(x: int, y: int)
    | LButtonUp(x: int, y: int)
    | Other

  /** The position an event carries (only for the three inspected kinds). */
  function Position(e: Event): Point
    requires !e.Other?
  {
    Point(e.x, e.y)
  }

  /** Python's built-in `abs` on integers. */
  function Abs(n: int): (r: nat)
    ensures r == n || r == -n
  {
    if n < 0 then -n else n
  }
}
