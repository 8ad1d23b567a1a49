/** The direction gate: the arrow buttons and the swipe classifier, both of
    which refuse to turn the snake straight back on itself. */
module Steering {
  import opened Grid

  datatype Option<T> = None | Some(value: T)

  /** An arrow button pressed while the snake heads `current`: each button
      sets its own direction unless the snake heads the opposite way. */
  function Turn(current: Direction, requested: Direction): (r: Direction)
    ensures requested == Opposite(current) ==> r == current
    ensures requested != Opposite(current) ==> r == requested
  {
    match requested
    case Up => if current != Down then Up else current
    case Left => if current != Right then Left else current
    case Right => if current != Left then Right else current
    case Down => if current != Up then Down else current
  }

  function Abs(v: real): real {
    if v < 0.0 then -v else v
  }

  /** A swipe of (dx, dy), y pointing down, while the snake heads `current`. */
  function SwipeDirection(current: Direction, dx: real, dy: real): (r: Direction)
    ensures Abs(dx) == Abs(dy) ==> r == current
    ensures r != Opposite(current)
    ensures r == current || (Abs(dx) > Abs(dy) <==> r == Left || r == Right)
  {
    if Abs(dx) > Abs(dy) && dx > 0.0 && current != Left then Right
    else if Abs(dx) > Abs(dy) && dx < 0.0 && current != Right then Left
    else if Abs(dy) > Abs(dx) && dy > 0.0 && current != Up then Down
    else if Abs(dy) > Abs(dx) && dy < 0.0 && current != Down then Up
    else current
  }

  /** The direction a swipe points along, if one axis strictly dominates. */
  function Dominant(dx: real, dy: real): Option<Direction> {
    if Abs(dx) > Abs(dy) then Some(if dx > 0.0 then Right else Left)
    else if Abs(dy) > Abs(dx) then Some(if dy > 0.0 then Down else Up)
    else None
  }

  /** A swipe is the arrow button of its dominant axis; a tie is ignored. */
  lemma SwipeIsDominantTurn(current: Direction, dx: real, dy: real)
    ensures SwipeDirection(current, dx, dy)
         == match Dominant(dx, dy)
            case None => current
            case Some(d) => Turn(current, d)
  {
  }

  /** The gate compares a request with the current direction only, not with
      the direction of the last move: whatever the heading, two accepted
      presses between ticks (a perpendicular one, then the reverse of the
      heading) turn the snake back onto itself. */
  lemma TwoPressesReverse(d: Direction)
    ensures exists p: Direction :: Turn(d, p) == p && Turn(Turn(d, p), Opposite(d)) == Opposite(d)
  {
    var p := if d == Up || d == Down then Left else Up;
    assert Turn(d, p) == p;
    assert Turn(Turn(d, p), Opposite(d)) == Opposite(d);
  }
}
