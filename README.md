# Snake game engine in Dafny

This project models the game engine of an Android snake game. The engine is a
single Compose screen, `SnakeGame`, in `MainActivity.kt`. The snake moves on a
20 × 20 board whose edges wrap around. It dies when its new head lands on any
cell of its current body. It grows and scores when the head lands on the food.
The food is then placed again by rejection sampling.

Modules, leaves first:

- `Grid`: directions, cells and `NextHead`, the one-cell move with wrap-around.
  Kotlin's truncating `%` is modelled by `Rem`.
- `Steering`: the direction gate. `Turn` models the four arrow buttons and
  `SwipeDirection` models the swipe classifier.
- `Snake`: the body invariant (non-empty, on the board, no repeated cell), the
  advance and grow steps, and the pigeonhole argument that a body shorter than
  the board leaves a cell free.
- `Food`: `RandomFood`, the rejection-sampling loop. The random generator is a
  parameter `draw: nat -> Point`: `draw(k)` is the cell built from the k-th pair
  of `Random.nextInt(grid)` results.
- `Session`: the class `GameSession`. It has the screen's state variables
  (`snake`, `direction`, `food`, `score`, `isRunning`, `gameOver`) and the
  handlers that change them. `Tick` is one pass of the game loop. `Valid()` is
  the invariant every handler keeps: the body is well formed, the food is on a
  free board cell, and the body has one more cell than the start for each point
  scored. The `Scenario…` methods replay concrete game situations: a plain
  advance, eating, a collision across the wrap, a collision with the tail, and
  two presses between ticks.

Behaviour of the code worth knowing:

- The state is two flags, `isRunning` and `gameOver`, not a four-valued status.
- The game-over screen also shows a Start button. So `isRunning && gameOver` is
  reachable, and no tick happens in that state.
- Reset leaves `isRunning` as it was. After Start then Reset on the game-over
  screen, the game runs at once.
- The direction gate compares a request with the current direction only, not
  with the direction of the last move. Two presses between ticks (Up, then
  Left, while moving Right) send the snake back onto its neck and end the game.
  `ScenarioTwoPresses` shows this.

## Model

| member | source | states |
|---|---|---|
| `Grid.NextHead` | app/src/main/java/com/example/snake/MainActivity.kt:189-201 | A head on the board moves to a cell on the board. Left and Right keep y; Up and Down keep x. |
| `Grid.Rem` | app/src/main/java/com/example/snake/MainActivity.kt:191-197 | Kotlin's `%`: the remainder has the dividend's sign and is smaller than the divisor in size. For a dividend in [0, 2b) it is the dividend, less b once if needed. |
| `Grid.NextHeadIsWrappedStep` | app/src/main/java/com/example/snake/MainActivity.kt:189-201 | On the board, the move adds the direction's unit vector and reduces each coordinate modulo the grid into [0, grid). |
| `Grid.NextHeadSteps` | app/src/main/java/com/example/snake/MainActivity.kt:189-201 | The move changes one coordinate by ±1. Left from x = 0 gives grid − 1, Right from grid − 1 gives 0, and the same holds for Up and Down on y. |
| `Grid.NextHeadUndo` | app/src/main/java/com/example/snake/MainActivity.kt:189-201 | A move followed by the opposite move returns to the start cell. |
| `Grid.NextHeadMoves` | app/src/main/java/com/example/snake/MainActivity.kt:189-201 | On a board wider than one cell, the head always leaves its cell. |
| `Steering.Turn` | app/src/main/java/com/example/snake/MainActivity.kt:167-182 | A button opposite the current direction leaves it unchanged. Any other button, the current direction included, becomes the direction. |
| `Steering.SwipeDirection` | app/src/main/java/com/example/snake/MainActivity.kt:101-107 | A swipe with \|dx\| = \|dy\| keeps the direction. A swipe never yields the reverse of the current direction. A changed direction is horizontal exactly when \|dx\| > \|dy\|. |
| `Steering.SwipeIsDominantTurn` | app/src/main/java/com/example/snake/MainActivity.kt:101-107 | A swipe acts as the arrow button of its strictly dominant axis, signed by that axis's delta. A tie changes nothing. |
| `Steering.TwoPressesReverse` | app/src/main/java/com/example/snake/MainActivity.kt:167-182 | For every heading, some button is accepted, and after it the button for the reverse of the original heading is accepted too: two presses between ticks reverse the snake. |
| `Snake.Advance` | app/src/main/java/com/example/snake/MainActivity.kt:66 | The body keeps its length; the new head comes first and every later cell is the cell that was one place ahead of it. |
| `Snake.Grow` | app/src/main/java/com/example/snake/MainActivity.kt:69 | The body gains one cell; the new head comes first and every later cell is the old body in order. Its first cells are exactly the body an advance would give, so growing differs from advancing only by keeping the tail. |
| `Snake.AdvanceKeepsWellFormed` | app/src/main/java/com/example/snake/MainActivity.kt:66-73 | A move onto a free board cell that drops the tail keeps the body non-empty, on the board and repetition-free. It keeps the length, and a cell that was off the body and is not the new head stays off it. |
| `Snake.GrowKeepsWellFormed` | app/src/main/java/com/example/snake/MainActivity.kt:67-73 | Growing onto a free board cell keeps the body well formed and adds exactly one cell. |
| `Snake.FreeCellExists` | app/src/main/java/com/example/snake/MainActivity.kt:203-209 | A body with fewer cells than the board leaves at least one board cell free. |
| `Snake.WellFormedFits` | app/src/main/java/com/example/snake/MainActivity.kt:59-73 | A well-formed body has at most grid × grid cells. |
| `Food.RandomFood` | app/src/main/java/com/example/snake/MainActivity.kt:203-209 | The result is a board cell off the snake. It is the first draw off the snake; every earlier draw was on it. |
| `Food.FullBoardNeverFinishes` | app/src/main/java/com/example/snake/MainActivity.kt:205-207 | When the snake covers the board, no draw misses it: the condition under which `RandomFood` terminates fails, so `randomFood` never returns. |
| `Food.ShortSnakeLetsFoodLand` | app/src/main/java/com/example/snake/MainActivity.kt:203-209 | A random source that reaches every cell hits a free cell whenever the snake is shorter than the board. |
| `Session.GameSession.constructor` | app/src/main/java/com/example/snake/MainActivity.kt:43-53 | Initial state: snake (5,10), (4,10), (3,10), direction Right, score 0, not running, not over, and food on a free cell. |
| `Session.GameSession.Ticking` | app/src/main/java/com/example/snake/MainActivity.kt:57 | The loop condition: a paused game and a finished game do not tick. |
| `Session.GameSession.NewHead` | app/src/main/java/com/example/snake/MainActivity.kt:59 | From a head on the board, the next head is a board cell other than the head itself, so a collision is always with a later body cell. |
| `Session.GameSession.Tick` | app/src/main/java/com/example/snake/MainActivity.kt:57-74 | Runs only while running and not over, and keeps `Valid()`. A new head on any current body cell, tail included, sets game over, stops the loop and changes nothing else. A head on the food prepends the head, keeps the tail, adds 1 to the score and re-places the food off the new body. Any other head prepends the head and drops the tail; score and food are unchanged. |
| `Session.GameSession.Start` | app/src/main/java/com/example/snake/MainActivity.kt:177 | The loop's running flag is set. |
| `Session.GameSession.Pause` | app/src/main/java/com/example/snake/MainActivity.kt:175 | The loop's running flag is cleared. |
| `Session.GameSession.Reset` | app/src/main/java/com/example/snake/MainActivity.kt:152-158 | Restores the initial snake, direction and score, places food off the snake and clears game over. The running flag is left as it was, and `Valid()` holds afterwards. |
| `Session.GameSession.Press` | app/src/main/java/com/example/snake/MainActivity.kt:167-182 | An arrow button sets the direction through the gate `Turn`. |
| `Session.GameSession.Swipe` | app/src/main/java/com/example/snake/MainActivity.kt:100-108 | A swipe sets the direction through the classifier `SwipeDirection`. |

## Left out

- Rendering: the Compose layout, texts, the canvas drawing of grid, food and snake, and the cell scaling (MainActivity.kt:77-186). It draws state and decides nothing.
- Timing: the coroutine behind `LaunchedEffect`, the 130 ms `delay`, and the effect restarting whenever one of its keys changes. The model has the single tick and the loop condition `Ticking()`. It does not model that each direction change restarts the wait.
- The pointer-gesture loop `detectTransformGesturesOrSwipes` (MainActivity.kt:220-243). It awaits pointer events and applies the 40-pixel threshold. Only its callback's classification of (dx, dy) is modelled.
- `Random`: its distribution is not modelled. Each call to food placement receives its draws as a parameter. The session requires the draws to be fair: every draw is a board cell and every cell turns up.
- Which buttons are on screen in which state (Reset only after game over, the arrows only before). Each handler is modelled as its click body, callable in any state.
- `MainActivity.onCreate`, the theme, and the import lines placed after declarations (MainActivity.kt:24-35, 212-218).
- Session.GameSession.Tick: requires that a snake about to eat still leaves a free cell after growing. When the snake would fill the board, `randomFood` never returns, so that tick has no result to model.
- Food.RandomFood: requires that some draw misses the snake. Without that `randomFood` never returns.
- Steering.SwipeDirection: dx and dy are reals, so Float rounding and NaN are not modelled.
- Kotlin's 32-bit `Int` overflow is not modelled. Every coordinate stays below 20 and the score below 400 under `Valid()`.
