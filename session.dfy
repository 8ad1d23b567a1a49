/** The game session: the state the snake screen keeps, the game-loop tick,
    and the Start, Pause, Reset, arrow-button and swipe handlers. */
module Session {
  import opened Grid
  import opened Steering
  import opened Snake
  import opened Food

  /** The board is GridSize × GridSize cells. */
  const GridSize: nat := 20

  /** The snake at the start and after Reset: three cells on row 10, head at x = 5. */
  const InitialSnake: seq<Point> := [Point(5, 10), Point(4, 10), Point(3, 10)]

  class GameSession {
    var snake: seq<Point>
    var direction: Direction
    var food: Point
    var score: nat
    var isRunning: bool
    var gameOver: bool

    /** The invariant every handler keeps: a well-formed body, food on a free
        board cell, and one extra cell per point scored. */
    ghost predicate Valid()
      reads this
    {
      && WellFormed(snake, GridSize)
      && InGrid(food, GridSize) && food !in snake
      && |snake| == |InitialSnake| + score
    }

    /** The game loop's condition: ticks happen only while this holds, so a
        paused or finished game does not move. */
    predicate Ticking()
      reads this
      ensures !isRunning ==> !Ticking()
      ensures gameOver ==> !Ticking()
    {
      isRunning && !gameOver
    }

    /** The cell the head moves to on the next tick: a board cell other than
        the head's own, so a collision is always with a later body cell. */
    function NewHead(): (r: Point)
      reads this
      requires |snake| > 0
      ensures InGrid(snake[0], GridSize) ==> InGrid(r, GridSize) && r != snake[0]
    {
      if InGrid(snake[0], GridSize) then
        NextHeadMoves(snake[0], direction, GridSize);
        NextHead(snake[0], direction, GridSize)
      else
        NextHead(snake[0], direction, GridSize)
    }

    constructor (draw: nat -> Point)
      requires Fair(draw, GridSize)
      ensures Valid()
      ensures snake == InitialSnake && direction == Right && score == 0
      ensures !isRunning && !gameOver
    {
      ShortSnakeLetsFoodLand(GridSize, InitialSnake, draw);
      var f := RandomFood(GridSize, InitialSnake, draw);
      isRunning := false;
      score := 0;
      direction := Right;
      snake := InitialSnake;
      food := f;
      gameOver := false;
    }

    /** One pass of the game loop. A head that lands on any cell of the
        current body, the tail included, ends the game and changes nothing
        else; a head on the food grows the snake, scores and re-places the
        food; any other head moves the snake one cell. Eating the last free
        cell would leave no place for food, and `randomFood` never returns
        then, so that tick is excluded. */
    method Tick(draw: nat -> Point)
      requires Valid() && Ticking() && Fair(draw, GridSize)
      requires NewHead() == food ==> |snake| + 1 < GridSize * GridSize
      modifies this
      ensures Valid()
      ensures direction == old(direction)
      ensures var h := old(NewHead());
        if h in old(snake) then
          && gameOver && !isRunning && !Ticking()
          && snake == old(snake) && score == old(score) && food == old(food)
        else if h == old(food) then
          && Ticking()
          && snake == [h] + old(snake) && |snake| == old(|snake|) + 1
          && score == old(score) + 1 && food !in snake
        else
          && Ticking()
          && snake == [h] + old(snake)[..old(|snake|) - 1] && |snake| == old(|snake|)
          && score == old(score) && food == old(food)
    {
      var newHead := NextHead(snake[0], direction, GridSize);
      if newHead in snake {
        gameOver := true;
        isRunning := false;
        return;
      }
      var newSnake := Advance(snake, newHead);
      AdvanceKeepsWellFormed(snake, newHead, GridSize);
      if newHead == food {
        newSnake := Grow(snake, newHead);
        GrowKeepsWellFormed(snake, newHead, GridSize);
        score := score + 1;
        ShortSnakeLetsFoodLand(GridSize, newSnake, draw);
        food := RandomFood(GridSize, newSnake, draw);
      }
      snake := newSnake;
    }

    /** The Start button. */
    method Start()
      modifies this`isRunning
      ensures isRunning
    {
      isRunning := true;
    }

    /** The Pause button. */
    method Pause()
      modifies this`isRunning
      ensures !isRunning
    {
      isRunning := false;
    }

    /** The Reset button: the initial snake, direction and score, fresh food
        off the snake, and the game no longer over; whether the loop runs is
        left as it was. */
    method Reset(draw: nat -> Point)
      requires Fair(draw, GridSize)
      modifies this`score, this`snake, this`direction, this`food, this`gameOver
      ensures Valid()
      ensures snake == InitialSnake && direction == Right && score == 0
      ensures !gameOver && isRunning == old(isRunning)
    {
      score := 0;
      snake := InitialSnake;
      direction := Right;
      ShortSnakeLetsFoodLand(GridSize, snake, draw);
      food := RandomFood(GridSize, snake, draw);
      gameOver := false;
    }

    /** An arrow button. */
    method Press(requested: Direction)
      modifies this`direction
      ensures direction == Turn(old(direction), requested)
    {
      direction := Turn(direction, requested);
    }

    /** A swipe of (dx, dy) reported by the gesture detector. */
    method Swipe(dx: real, dy: real)
      modifies this`direction
      ensures direction == SwipeDirection(old(direction), dx, dy)
    {
      direction := SwipeDirection(direction, dx, dy);
    }
  }

  /** The draws of a row-major scan of the board, repeated. */
  function Scan(k: nat): Point {
    Point(k % GridSize, (k / GridSize) % GridSize)
  }

  lemma ScanIsFair()
    ensures Fair(Scan, GridSize)
  {
    forall c | InGrid(c, GridSize) ensures exists k: nat :: Scan(k) == c {
      var k: nat := c.y * GridSize + c.x;
      DivModUnique(k, GridSize, c.y, c.x);
      assert Scan(k) == c;
    }
  }

  /** Moving right onto an empty cell drops the tail. */
  method ScenarioAdvance()
  {
    ScanIsFair();
    var g := new GameSession(Scan);
    g.Start();
    g.food := Point(10, 3);
    g.Tick(Scan);
    assert g.snake == [Point(6, 10), Point(5, 10), Point(4, 10)];
  }

  /** Moving right onto the food keeps the tail and scores. */
  method ScenarioGrow()
  {
    ScanIsFair();
    var g := new GameSession(Scan);
    g.Start();
    g.food := Point(6, 10);
    g.Tick(Scan);
    assert g.snake == [Point(6, 10), Point(5, 10), Point(4, 10), Point(3, 10)];
    assert g.score == 1 && g.food !in g.snake;
  }

  /** Moving left across the edge onto the second cell of the body ends the game. */
  method ScenarioWrapCollision()
  {
    ScanIsFair();
    var g := new GameSession(Scan);
    g.Start();
    g.snake, g.direction := [Point(0, 10), Point(19, 10), Point(18, 10)], Left;
    g.food := Point(10, 3);
    g.Tick(Scan);
    assert g.gameOver && !g.isRunning;
    assert g.snake == [Point(0, 10), Point(19, 10), Point(18, 10)];
  }

  /** Moving onto the cell the tail is about to leave ends the game too. */
  method ScenarioTailCollision()
  {
    ScanIsFair();
    var g := new GameSession(Scan);
    g.Start();
    g.snake, g.direction, g.score := [Point(4, 10), Point(5, 10), Point(5, 11), Point(4, 11)], Down, 1;
    g.food := Point(10, 3);
    g.Tick(Scan);
    assert g.gameOver && !g.isRunning;
  }

  /** Two presses between ticks turn the snake back onto its neck. */
  method ScenarioTwoPresses()
  {
    ScanIsFair();
    var g := new GameSession(Scan);
    g.Start();
    g.food := Point(10, 3);
    g.Press(Up);
    g.Press(Left);
    assert g.direction == Left;
    g.Tick(Scan);
    assert g.gameOver;
  }
}
