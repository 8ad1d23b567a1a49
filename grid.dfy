/** Cells, directions and the one-cell move of the snake's head on a toroidal
    grid × grid board. */
module Grid {

  datatype Direction = Up | Down | Left | Right

  /** A cell of the board: x grows to the right, y grows downwards. */
  datatype Point = Point(x: int, y: int)

  predicate InGrid(p: Point, grid: int) {
    0 <= p.x < grid && 0 <= p.y < grid
  }

  /** The reversal of a direction: Up and Down, Left and Right. */
  function Opposite(d: Direction): Direction {
    match d
    case Up => Down
    case Down => Up
    case Left => Right
    case Right => Left
  }

  /** Kotlin's `%` on Int: division truncates toward zero, so the remainder
      carries the sign of the dividend (unlike Dafny's Euclidean `%`). */
  function Rem(a: int, b: int): (r: int)
    requires b > 0
    ensures a >= 0 ==> 0 <= r < b
    ensures a < 0 ==> -b < r <= 0
    ensures 0 <= a < 2 * b ==> r == if a < b then a else a - b
  {
    if a >= 0 then (ModBelowTwice(a, b); a % b) else -((-a) % b)
  }

  lemma ModBelowTwice(a: int, b: int)
    requires b > 0 && a >= 0
    ensures a < 2 * b ==> a % b == if a < b then a else a - b
  {
    if a < b {
      DivModUnique(a, b, 0, a);
    } else if a < 2 * b {
      DivModUnique(a, b, 1, a - b);
    }
  }

  lemma MulLeq(a: int, b: int, g: nat)
    requires a <= b
    ensures a * g <= b * g
  {
    assert b * g - a * g == (b - a) * g;
  }

  /** The quotient and remainder of `i` by `g` are the only such pair. */
  lemma DivModUnique(i: int, g: int, q: int, m: int)
    requires g > 0 && 0 <= m < g && i == q * g + m
    ensures i / g == q && i % g == m
  {
    var q', m' := i / g, i % g;
    assert (q - q') * g == m' - m;
    if q - q' >= 1 {
      MulLeq(1, q - q', g);
    } else if q - q' <= -1 {
      MulLeq(q - q', -1, g);
    }
  }

  /** The head's next cell: one step in `dir`, wrapping around the edges. */
  function NextHead(head: Point, dir: Direction, grid: int): (r: Point)
    requires grid > 0
    ensures InGrid(head, grid) ==> InGrid(r, grid)
    ensures dir == Left || dir == Right ==> r.y == head.y
    ensures dir == Up || dir == Down ==> r.x == head.x
  {
    var x := match dir
      case Left => Rem(head.x - 1 + grid, grid)
      case Right => Rem(head.x + 1, grid)
      case _ => head.x;
    var y := match dir
      case Up => Rem(head.y - 1 + grid, grid)
      case Down => Rem(head.y + 1, grid)
      case _ => head.y;
    Point(x, y)
  }

  /** Unit vector of a direction, y pointing down. */
  function DeltaX(d: Direction): int {
    match d
    case Left => -1
    case Right => 1
    case _ => 0
  }

  function DeltaY(d: Direction): int {
    match d
    case Up => -1
    case Down => 1
    case _ => 0
  }

  /** On the board, the move is the unit vector of `dir` added to the head and
      reduced modulo `grid` into [0, grid). */
  lemma NextHeadIsWrappedStep(head: Point, dir: Direction, grid: int)
    requires grid > 0 && InGrid(head, grid)
    ensures NextHead(head, dir, grid)
         == Point((head.x + DeltaX(dir)) % grid, (head.y + DeltaY(dir)) % grid)
  {
    WrapBelow(head.x, grid);
    WrapBelow(head.y, grid);
  }

  lemma WrapBelow(v: int, grid: int)
    requires 0 <= v < grid
    ensures (v - 1 + grid) % grid == (v - 1) % grid
    ensures v % grid == v
  {
    DivModUnique(v, grid, 0, v);
    if v == 0 {
      DivModUnique(grid - 1, grid, 0, grid - 1);
      DivModUnique(-1, grid, -1, grid - 1);
    } else {
      DivModUnique(v - 1 + grid, grid, 1, v - 1);
      DivModUnique(v - 1, grid, 0, v - 1);
    }
  }

  /** The move changes one coordinate by one, and only crosses an edge at the
      border: Left from x = 0 lands on x = grid - 1, Right from x = grid - 1
      lands on x = 0, and likewise for Up and Down on y. */
  lemma NextHeadSteps(head: Point, grid: int)
    requires grid > 0 && InGrid(head, grid)
    ensures NextHead(head, Left, grid) == Point(if head.x == 0 then grid - 1 else head.x - 1, head.y)
    ensures NextHead(head, Right, grid) == Point(if head.x == grid - 1 then 0 else head.x + 1, head.y)
    ensures NextHead(head, Up, grid) == Point(head.x, if head.y == 0 then grid - 1 else head.y - 1)
    ensures NextHead(head, Down, grid) == Point(head.x, if head.y == grid - 1 then 0 else head.y + 1)
  {
  }

  /** Moving back the opposite way undoes a move. */
  lemma NextHeadUndo(head: Point, dir: Direction, grid: int)
    requires grid > 0 && InGrid(head, grid)
    ensures NextHead(NextHead(head, dir, grid), Opposite(dir), grid) == head
  {
    NextHeadSteps(head, grid);
    NextHeadSteps(NextHead(head, dir, grid), grid);
  }

  /** On a board wider than one cell the head always leaves its cell. */
  lemma NextHeadMoves(head: Point, dir: Direction, grid: int)
    requires grid > 1 && InGrid(head, grid)
    ensures NextHead(head, dir, grid) != head
  {
    NextHeadSteps(head, grid);
  }
}
