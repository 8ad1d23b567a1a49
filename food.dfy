/** Food placement by rejection sampling: draw a random cell, draw again while
    it lies on the snake. The random generator is a parameter: `draw(k)` is
    the cell made of the k-th pair of `nextInt(grid)` results. */
module Food {
  import opened Grid
  import opened Snake

  /** A random source that only yields cells of the board and, sooner or
      later, yields every one of them. */
  ghost predicate Fair(draw: nat -> Point, grid: int) {
    && (forall k: nat :: InGrid(draw(k), grid))
    && (forall c :: InGrid(c, grid) ==> exists k: nat :: draw(k) == c)
  }

  /** The first draw that is not on the snake. The loop only ends if some
      draw misses the snake, which the caller must guarantee. */
  method RandomFood(grid: int, snake: seq<Point>, draw: nat -> Point) returns (p: Point)
    requires grid > 0
    requires forall k: nat :: InGrid(draw(k), grid)
    requires exists k: nat :: draw(k) !in snake
    ensures InGrid(p, grid) && p !in snake
    ensures exists n: nat :: p == draw(n) && forall j: nat :: j < n ==> draw(j) in snake
  {
    ghost var miss: nat :| draw(miss) !in snake;
    var i: nat := 0;
    p := draw(i);
    while p in snake
      invariant i <= miss
      invariant p == draw(i)
      invariant forall j: nat :: j < i ==> draw(j) in snake
      decreases miss - i
    {
      i := i + 1;
      p := draw(i);
    }
  }

  /** The sampling can only finish while the snake leaves a board cell free:
      on a full board no draw misses the snake, so the termination
      condition of `RandomFood` fails and `randomFood` never returns. */
  lemma FullBoardNeverFinishes(grid: int, snake: seq<Point>, draw: nat -> Point)
    requires forall k: nat :: InGrid(draw(k), grid)
    requires forall c :: InGrid(c, grid) ==> c in snake
    ensures !exists k: nat :: draw(k) !in snake
  {
  }

  /** With a fair source, a snake shorter than the board lets the sampling
      finish. */
  lemma ShortSnakeLetsFoodLand(grid: nat, snake: seq<Point>, draw: nat -> Point)
    requires Fair(draw, grid)
    requires |snake| < grid * grid
    ensures exists k: nat :: draw(k) !in snake
  {
    FreeCellExists(snake, grid);
    var c :| InGrid(c, grid) && c !in snake;
    var k: nat :| draw(k) == c;
  }
}
