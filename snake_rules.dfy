/**
  The rules of the table Snake game, as values: cells of the 20x20 grid,
  directions, how the head advances, the reversal guard on direction
  requests, the rejection choice of a new food cell, the classification
  of a rendered cell, and `Next`, the value-level meaning of one tick.
  The stateful component that applies these rules is `TableSnake.Game`.
 */
module SnakeRules {

  datatype Option<T> = None | Some(value: T)

  /** A grid cell; coordinates are plain integers so that a head that has
      left the grid can still be represented and rejected. */
  datatype Cell = Cell(x: int, y: int)

  datatype Direction = Up | Down | Left | Right

  /** What a rendered table cell shows: nothing, snake body, food, or the
      snake body of a finished game. */
  datatype CellView = Plain | SnakeCell | FoodCell | GameOverCell

  /** The six pieces of component state, as one value. */
  datatype Snapshot = Snapshot(
    snake: seq<Cell>,   // head first
    food: Cell,
    direction: Direction,
    score: nat,
    isRunning: bool,
    gameOver: bool)

  const GridSize: int := 20
  const InitialSnake: seq<Cell> := [Cell(10, 10), Cell(9, 10), Cell(8, 10)]
  const InitialFood: Cell := Cell(5, 5)
  const InitialDirection: Direction := Right
  const Initial: Snapshot := Snapshot(InitialSnake, InitialFood, InitialDirection, 0, false, false)

  predicate InGrid(c: Cell) {
    0 <= c.x < GridSize && 0 <= c.y < GridSize
  }

  function Abs(n: int): (r: nat)
    ensures r == n || r == -n
  {
    if n < 0 then -n else n
  }

  /** Manhattan distance one. */
  predicate Adjacent(a: Cell, b: Cell) {
    Abs(a.x - b.x) + Abs(a.y - b.y) == 1
  }

  function Opposite(d: Direction): (r: Direction)
    ensures r != d
  {
    match d
    case Up => Down
    case Down => Up
    case Left => Right
    case Right => Left
  }

  /** The cell one step from `c` in direction `d`; rows grow downwards. */
  function Advance(c: Cell, d: Direction): (r: Cell)
    ensures Adjacent(c, r)
    ensures d == Up ==> r.y < c.y
    ensures d == Down ==> r.y > c.y
    ensures d == Left ==> r.x < c.x
    ensures d == Right ==> r.x > c.x
  {
    match d
    case Up => c.(y := c.y - 1)
    case Down => c.(y := c.y + 1)
    case Left => c.(x := c.x - 1)
    case Right => c.(x := c.x + 1)
  }

  lemma AdvanceThenBack(c: Cell, d: Direction)
    ensures Advance(Advance(c, d), Opposite(d)) == c
    ensures Opposite(Opposite(d)) == d && Opposite(d) != d
  {
  }

  /** Why the reversal guard exists: on a snake whose head was last moved
      in direction `d`, committing the opposite direction sends the next
      head onto the snake's second cell, which ends the game. */
  lemma ReversalHitsSecondCell(s: Snapshot, d: Direction, draws: seq<Cell>)
    requires |s.snake| >= 2 && Live(s)
    requires s.snake[0] == Advance(s.snake[1], d) && s.direction == Opposite(d)
    ensures NextHead(s) == s.snake[1]
    ensures Next(s, draws) == s.(gameOver := true, isRunning := false)
  {
    AdvanceThenBack(s.snake[1], d);
  }

  /**
    The direction guard of the key handler and of the on-screen buttons:
    each request is refused only when the committed direction is its
    opposite.
   */
  function Steer(current: Direction, requested: Direction): (d: Direction)
    ensures requested == Opposite(current) ==> d == current
    ensures requested != Opposite(current) ==> d == requested
  {
    match requested
    case Up => if current != Down then Up else current
    case Down => if current != Up then Down else current
    case Left => if current != Right then Left else current
    case Right => if current != Left then Right else current
  }

  /** The arrow keys the handler reacts to; every other key is ignored. */
  function KeyDirection(key: string): (r: Option<Direction>)
    ensures r.None? <==> key !in {"ArrowUp", "ArrowDown", "ArrowLeft", "ArrowRight"}
  {
    if key == "ArrowUp" then Some(Up)
    else if key == "ArrowDown" then Some(Down)
    else if key == "ArrowLeft" then Some(Left)
    else if key == "ArrowRight" then Some(Right)
    else None
  }

  /** A snake the game can reach: non-empty, inside the grid, no cell
      twice, each cell Manhattan-adjacent to the next. */
  predicate WellFormedSnake(s: seq<Cell>) {
    && |s| > 0
    && (forall i :: 0 <= i < |s| ==> InGrid(s[i]))
    && (forall i, j :: 0 <= i < j < |s| ==> s[i] != s[j])
    && (forall i :: 0 <= i < |s| - 1 ==> Adjacent(s[i], s[i + 1]))
  }

  predicate Consistent(s: Snapshot) {
    WellFormedSnake(s.snake) && InGrid(s.food)
  }

  lemma InitialIsConsistent()
    ensures Consistent(Initial)
  {
  }

  lemma GrowKeepsWellFormed(s: seq<Cell>, h: Cell)
    requires WellFormedSnake(s)
    requires InGrid(h) && h !in s && Adjacent(s[0], h)
    ensures WellFormedSnake([h] + s)
  {
    var t := [h] + s;
    forall i, j | 0 <= i < j < |t| ensures t[i] != t[j] {
      assert t[j] == s[j - 1];
      if i > 0 {
        assert t[i] == s[i - 1];
      }
    }
    forall i | 0 <= i < |t| - 1 ensures Adjacent(t[i], t[i + 1]) {
      if i == 0 {
        assert t[1] == s[0];
      } else {
        assert t[i] == s[i - 1] && t[i + 1] == s[i];
      }
    }
  }

  lemma DropTailKeepsWellFormed(t: seq<Cell>)
    requires WellFormedSnake(t) && |t| >= 2
    ensures WellFormedSnake(t[..|t| - 1])
  {
    var u := t[..|t| - 1];
    forall i | 0 <= i < |u| - 1 ensures Adjacent(u[i], u[i + 1]) {
      assert u[i] == t[i] && u[i + 1] == t[i + 1];
    }
  }

  predicate HasFreeDraw(draws: seq<Cell>, avoid: seq<Cell>) {
    exists i :: 0 <= i < |draws| && draws[i] !in avoid
  }

  /** The random cells the food generator would draw, in order: each is in
      the grid, and sooner or later one misses `avoid`. */
  predicate FoodSource(draws: seq<Cell>, avoid: seq<Cell>) {
    (forall i :: 0 <= i < |draws| ==> InGrid(draws[i])) && HasFreeDraw(draws, avoid)
  }

  /** Rejection sampling: the position of the first draw not on `avoid`. */
  function FirstFreeIndex(draws: seq<Cell>, avoid: seq<Cell>): (k: nat)
    requires HasFreeDraw(draws, avoid)
    ensures k < |draws| && draws[k] !in avoid
    ensures forall j :: 0 <= j < k ==> draws[j] in avoid
    decreases |draws|
  {
    if draws[0] !in avoid then 0
    else
      assert HasFreeDraw(draws[1..], avoid) by {
        var i :| 0 <= i < |draws| && draws[i] !in avoid;
        assert i > 0 && draws[1..][i - 1] == draws[i];
      }
      1 + FirstFreeIndex(draws[1..], avoid)
  }

  /** The head position a tick moves to. */
  function NextHead(s: Snapshot): (h: Cell)
    requires |s.snake| > 0
    ensures Adjacent(s.snake[0], h)
  {
    Advance(s.snake[0], s.direction)
  }

  predicate Live(s: Snapshot) {
    s.isRunning && !s.gameOver
  }

  /** The tick ahead eats: the only case in which the food generator runs. */
  predicate Eats(s: Snapshot) {
    && |s.snake| > 0
    && Live(s)
    && InGrid(NextHead(s))
    && NextHead(s) !in s.snake
    && NextHead(s) == s.food
  }

  /**
    One tick of the game loop. A stopped or finished game is left alone;
    a head that leaves the grid or meets any cell of the current snake
    (its tail included) ends the game and keeps the snake; otherwise the
    new head is prepended, and the last cell is dropped unless the head
    reached the food, in which case the score rises and new food is drawn
    off the snake as it was before the move.
   */
  function Next(s: Snapshot, draws: seq<Cell>): Snapshot
    requires |s.snake| > 0
    requires Eats(s) ==> FoodSource(draws, s.snake)
  {
    if s.gameOver || !s.isRunning then s
    else
      var h := NextHead(s);
      if !InGrid(h) then s.(gameOver := true, isRunning := false)
      else if h in s.snake then s.(gameOver := true, isRunning := false)
      else if h == s.food then
        s.(snake := [h] + s.snake, score := s.score + 1, food := draws[FirstFreeIndex(draws, s.snake)])
      else
        s.(snake := [h] + s.snake[..|s.snake| - 1])
  }

  lemma IdleTickChangesNothing(s: Snapshot, draws: seq<Cell>)
    requires |s.snake| > 0
    requires !s.isRunning || s.gameOver
    ensures Next(s, draws) == s
  {
  }

  lemma TickIntoWallEndsGame(s: Snapshot, draws: seq<Cell>)
    requires |s.snake| > 0 && Live(s)
    requires !InGrid(NextHead(s))
    ensures Next(s, draws) == s.(gameOver := true, isRunning := false)
  {
  }

  lemma TickIntoBodyEndsGame(s: Snapshot, draws: seq<Cell>, i: nat)
    requires |s.snake| > 0 && Live(s)
    requires i < |s.snake| && NextHead(s) == s.snake[i]
    ensures Next(s, draws) == s.(gameOver := true, isRunning := false)
  {
  }

  lemma TickOntoFoodGrows(s: Snapshot, draws: seq<Cell>)
    requires Eats(s) && FoodSource(draws, s.snake)
    ensures var t := Next(s, draws);
      && t.snake == [s.food] + s.snake
      && |t.snake| == |s.snake| + 1
      && t.score == s.score + 1
      && InGrid(t.food) && t.food !in s.snake
      && t.direction == s.direction && Live(t)
  {
    var k := FirstFreeIndex(draws, s.snake);
    assert InGrid(draws[k]);
  }

  lemma TickElsewhereSlides(s: Snapshot, draws: seq<Cell>)
    requires |s.snake| > 0 && Live(s)
    requires InGrid(NextHead(s)) && NextHead(s) !in s.snake && NextHead(s) != s.food
    ensures var t := Next(s, draws);
      && t.snake == [NextHead(s)] + s.snake[..|s.snake| - 1]
      && |t.snake| == |s.snake|
      && t.snake[0] == Advance(s.snake[0], s.direction)
      && t.score == s.score && t.food == s.food
      && t.direction == s.direction && Live(t)
  {
  }

  /** Every tick keeps the snake well formed and the food in the grid; a
      tick that does not end the game moves the head to an adjacent cell. */
  lemma TickKeepsConsistent(s: Snapshot, draws: seq<Cell>)
    requires Consistent(s)
    requires Eats(s) ==> FoodSource(draws, s.snake)
    ensures Consistent(Next(s, draws))
    ensures Next(s, draws).direction == s.direction
    ensures Live(s) && !Next(s, draws).gameOver ==> Adjacent(s.snake[0], Next(s, draws).snake[0])
  {
    if Live(s) {
      var h := NextHead(s);
      if InGrid(h) && h !in s.snake {
        GrowKeepsWellFormed(s.snake, h);
        if h == s.food {
          var k := FirstFreeIndex(draws, s.snake);
          assert InGrid(draws[k]);
        } else {
          DropTailKeepsWellFormed([h] + s.snake);
          assert ([h] + s.snake)[..|s.snake|] == [h] + s.snake[..|s.snake| - 1];
        }
      }
    }
  }

  /** The generator only avoids the snake as it stood before the move, so
      fresh food can be placed on the cell the head has just entered. */
  lemma FoodCanLandOnNewHead()
    ensures var s := Initial.(isRunning := true, food := Cell(11, 10));
      && Consistent(s) && Eats(s) && FoodSource([Cell(11, 10)], s.snake)
      && Next(s, [Cell(11, 10)]).food == Next(s, [Cell(11, 10)]).snake[0]
  {
    var s := Initial.(isRunning := true, food := Cell(11, 10));
    assert Cell(11, 10) !in s.snake;
    assert FoodSource([Cell(11, 10)], s.snake) by {
      assert [Cell(11, 10)][0] !in s.snake;
    }
  }

  /** The starting snake, running right, after `n` free moves. */
  function RunningRight(n: nat): Snapshot {
    Initial.(isRunning := true, snake := [Cell(10 + n, 10), Cell(9 + n, 10), Cell(8 + n, 10)])
  }

  /** Running right along row 10 from the start, no tick eats (the food
      is at (5,5)) and each tick moves the whole snake one cell right,
      until the head reaches the right wall. */
  lemma StepRight(n: nat)
    requires n < 9
    ensures !Eats(RunningRight(n))
    ensures Next(RunningRight(n), []) == RunningRight(n + 1)
  {
    var s := RunningRight(n);
    assert NextHead(s) == Cell(11 + n, 10);
    assert s.snake[..2] == [Cell(10 + n, 10), Cell(9 + n, 10)];
  }

  /** From the starting position, running right with no food in the way,
      five ticks carry the head five cells right and keep three cells. */
  lemma FiveTicksRight()
    ensures Next(Next(Next(Next(Next(RunningRight(0), []), []), []), []), [])
      == RunningRight(5)
    ensures RunningRight(5).snake == [Cell(15, 10), Cell(14, 10), Cell(13, 10)]
  {
    StepRight(0);
    StepRight(1);
    StepRight(2);
    StepRight(3);
    StepRight(4);
  }

  /** Two requests between ticks are each checked against the committed
      direction only: right, then up, then left is all accepted, and the
      next tick from the starting snake runs the head into its own neck. */
  lemma QuickTurnBitesNeck()
    ensures Steer(Steer(Right, Up), Left) == Left
    ensures var s := Initial.(isRunning := true, direction := Steer(Steer(Initial.direction, Up), Left));
      Next(s, []) == s.(gameOver := true, isRunning := false)
  {
    var s := Initial.(isRunning := true, direction := Left);
    assert NextHead(s) == s.snake[1];
  }

  /**
    The renderer's classification: snake body marks the cell, food
    overrides it, and a finished game overrides both on snake cells.
   */
  function CellClass(c: Cell, snake: seq<Cell>, food: Cell, gameOver: bool): (v: CellView)
    ensures v == GameOverCell <==> gameOver && c in snake
    ensures v == FoodCell <==> c == food && !(gameOver && c in snake)
    ensures v == SnakeCell <==> c in snake && c != food && !gameOver
    ensures v == Plain <==> c !in snake && c != food
  {
    var isSnake := c in snake;
    var isFood := c == food;
    var marked := if isSnake then SnakeCell else Plain;
    var withFood := if isFood then FoodCell else marked;
    if gameOver && isSnake then GameOverCell else withFood
  }
}
