# TableSnake game, modelled in Dafny

The repository is a Snake game drawn as a 20x20 HTML table. All of its logic
sits in one component. The component keeps six state cells: the snake (head
first), the food cell, the committed direction, the score, and the
`isRunning` and `gameOver` flags. A timer moves the snake once per period.
Arrow keys and on-screen buttons request a new direction, and three buttons
start, pause and reset the game.

The model has two modules:

- `SnakeRules` (`snake_rules.dfy`) holds the rules as values. It defines
  cells and directions, `Advance` (one step of the head), `Steer` (the 180°
  reversal guard), and `FirstFreeIndex` (the food generator's rejection
  sampling). It defines `CellClass` (the renderer's cell classification) and
  `Next`, the meaning of one tick on a `Snapshot` of the six fields. It also
  holds the lemmas about these.
- `TableSnake` (`table_snake.dfy`) holds the component as a class `Game`.
  The class has the six fields and one method per handler: `Tick`,
  `GenerateFood`, `RequestDirection`, `HandleKey`, `Start`, `Pause`, `Reset`
  and `RenderGrid`. `Tick` is proved to leave exactly `Next(old state)`, and
  every handler keeps `Valid()`. `Valid()` says the snake is non-empty, inside
  the grid and free of repeated cells, that consecutive cells are
  Manhattan-adjacent, and that the food is inside the grid.

Randomness is a parameter. Each pair of `Math.random` calls becomes one
element of `draws: seq<Cell>`, the in-grid candidates the generator would
draw, in order. `FoodSource(draws, snake)` also asks that some draw misses
the snake. This stands in for the almost-sure termination of the source's
`while (true)` loop. `Tick` only needs it on a tick that eats, because only
then does the source call the generator.

Two behaviours of the code are kept as written:

- New food is drawn against the snake as it was before the move. The
  generator's loop (index.tsx:25-33) keeps the food off the snake its
  closure captured (line 31, dependency at line 35). That is the pre-move
  snake, not the one with the new head, so the new food can land on the
  cell the head has just entered. `FoodCanLandOnNewHead` shows such a tick,
  and the model claims no "food is off the snake" invariant.
- The reversal guard compares each request with the committed direction
  only. Right, then Up, then Left before one tick are all accepted. The next
  tick then runs the head into the snake's second cell (`QuickTurnBitesNeck`,
  `QuickTurnEndsGame`).

Self collision is checked against the whole pre-move snake, so a move onto
the current tail cell ends the game. This is the code's rule and the model
keeps it.

## Model

| member | source | states |
|---|---|---|
| SnakeRules.Advance | src/components/TableSnake/index.tsx:44-57 | the new head is Manhattan-adjacent to the old one and lies on the side the direction names (up: smaller y, down: larger y, left: smaller x, right: larger x) |
| SnakeRules.AdvanceThenBack | src/components/TableSnake/index.tsx:44-57 | stepping back in the opposite direction returns to the start cell; opposite is an involution with no fixed point |
| SnakeRules.ReversalHitsSecondCell | src/components/TableSnake/index.tsx:102-111 | why the guard exists: if the head last moved in some direction and the opposite is committed, the next head is the snake's second cell and the tick ends the game with the snake unchanged |
| SnakeRules.Steer | src/components/TableSnake/index.tsx:99-113 | a request for the opposite of the committed direction leaves it unchanged; any other request, the same direction included, is committed |
| SnakeRules.KeyDirection | src/components/TableSnake/index.tsx:100-113 | exactly the four arrow keys map to a direction; every other key maps to nothing |
| SnakeRules.InitialIsConsistent | src/components/TableSnake/index.tsx:5-12 | the initial snapshot has a well-formed snake and in-grid food |
| SnakeRules.GrowKeepsWellFormed | src/components/TableSnake/index.tsx:60-78 | prepending an in-grid, adjacent head that is not on the snake keeps the snake well formed |
| SnakeRules.DropTailKeepsWellFormed | src/components/TableSnake/index.tsx:84-86 | dropping the last cell of a well-formed snake of two or more cells keeps it well formed |
| SnakeRules.FirstFreeIndex | src/components/TableSnake/index.tsx:23-34 | the chosen draw is off the avoided cells and every earlier draw was on them (first accepted candidate of the rejection loop) |
| SnakeRules.IdleTickChangesNothing | src/components/TableSnake/index.tsx:38 | a tick while stopped or after game over leaves every field unchanged |
| SnakeRules.TickIntoWallEndsGame | src/components/TableSnake/index.tsx:59-69 | a head leaving [0, 20)² sets game over, stops the game, and changes nothing else (snake, food, score kept) |
| SnakeRules.TickIntoBodyEndsGame | src/components/TableSnake/index.tsx:71-76 | a head on any cell of the pre-move snake, tail included, sets game over, stops the game, and changes nothing else |
| SnakeRules.TickOntoFoodGrows | src/components/TableSnake/index.tsx:78-83 | eating makes the snake the food cell followed by the old snake (length + 1), adds 1 to the score, and places new in-grid food off the pre-move snake |
| SnakeRules.TickElsewhereSlides | src/components/TableSnake/index.tsx:78-88 | a free move prepends the advanced head and drops the last cell; length, score and food are unchanged |
| SnakeRules.TickKeepsConsistent | src/components/TableSnake/index.tsx:40-89 | every tick keeps the snake non-empty, in-grid, duplicate-free and adjacent and the food in the grid; the direction is unchanged; a tick that does not end the game moves the head to an adjacent cell |
| SnakeRules.FoodCanLandOnNewHead | src/components/TableSnake/index.tsx:23-35 | there is a valid eating tick whose new food is the new head cell: the generator avoids only the pre-move snake |
| SnakeRules.QuickTurnBitesNeck | src/components/TableSnake/index.tsx:99-113 | right, up, left between two ticks are all accepted, and from the initial snake the next tick ends the game with the snake unchanged |
| SnakeRules.StepRight | src/components/TableSnake/index.tsx:37-90 | running right along row 10 from the initial snake, a tick never eats and moves all three cells one column right, until the head reaches the wall |
| SnakeRules.FiveTicksRight | src/components/TableSnake/index.tsx:37-90 | from the initial snapshot, running, five ticks put the head at (15,10) with three cells |
| SnakeRules.CellClass | src/components/TableSnake/index.tsx:143-149 | game-over marks exactly the snake cells of a finished game; food shows on the food cell unless that overrides; plain snake body only when not over and not food; plain when neither |
| TableSnake.Game.constructor | src/components/TableSnake/index.tsx:16-21 | a new component holds the initial snapshot and is valid |
| TableSnake.Game.GenerateFood | src/components/TableSnake/index.tsx:23-34 | the food becomes the first draw not on the current snake, which is in the grid and off the snake; no other field changes |
| TableSnake.Game.Tick | src/components/TableSnake/index.tsx:37-90 | the new state is `Next` of the old state and the draws, and validity is kept |
| TableSnake.Game.RequestDirection | src/components/TableSnake/index.tsx:174-179 | only the direction changes, to `Steer(old direction, request)`; a reversal is ignored |
| TableSnake.Game.HandleKey | src/components/TableSnake/index.tsx:99-113 | an arrow key passes its direction through the guard; any other key changes nothing |
| TableSnake.Game.Start | src/components/TableSnake/index.tsx:120-122 | sets running unless the game is over; nothing changes after game over |
| TableSnake.Game.Pause | src/components/TableSnake/index.tsx:124-126 | clears running and changes nothing else |
| TableSnake.Game.Reset | src/components/TableSnake/index.tsx:128-135 | from any state the result is exactly the initial snapshot, so a second reset gives the same state |
| TableSnake.Game.RenderGrid | src/components/TableSnake/index.tsx:138-156 | a 20x20 grid whose cell at row y, column x is `CellClass` of (x, y) |
| TableSnake.QuickTurnEndsGame | src/components/TableSnake/index.tsx:99-113 | constructor, Start, ArrowUp, ArrowLeft and one Tick end the game with the initial snake unchanged |

## Left out

- React state hooks, memoised callbacks and effects. Each handler is one atomic update of the fields, and the stale-closure and batched-update timing is not modelled.
- The 150 ms `setInterval` timer and the window keydown listener registration and teardown (index.tsx:92-95, 116-118). Only their effect is modelled: calls of `Tick` and `HandleKey`.
- `Math.random`. The candidates are the parameter `draws`, so uniformity and the almost-sure termination of the rejection loop are not modelled. `FoodSource` asks for a candidate off the snake instead.
- JSX markup, CSS class names, the score and "Game Over!" text, and the `disabled` attributes of the buttons. Only the cell classification and the grid it fills are modelled.
- src/app/layout.tsx and next.config.ts: page shell and build configuration, with no game logic.
- TableSnake.Game.Tick: requires `Valid()`, so it does not describe a tick on a snake that is empty, leaves the grid, repeats a cell or has non-adjacent consecutive cells, or on food outside the grid. None of these states is reachable: the constructor and `Reset` produce the valid initial snapshot, `Tick` keeps validity (`TickKeepsConsistent`), and `RequestDirection`, `HandleKey`, `Start` and `Pause` change only `direction` or `isRunning`, which `Valid()` does not constrain. On an empty snake the source would read an undefined head.
