/**
  The TableSnake component: the six state cells it keeps, and the handlers
  that update them — the timer's tick, the key and button direction
  requests, Start, Pause and Reset — plus the grid the renderer builds.
  Each handler is one atomic update of the fields.
 */
module TableSnake {
  import opened SnakeRules

  class Game {
    var snake: seq<Cell>   // head first
    var food: Cell
    var direction: Direction
    var score: nat
    var isRunning: bool
    var gameOver: bool

    /** The fields as one value, for comparing whole states. */
    function State(): Snapshot
      reads this
    {
      Snapshot(snake, food, direction, score, isRunning, gameOver)
    }

    predicate Valid()
      reads this
    {
      Consistent(State())
    }

    /** The component as first mounted. */
    constructor ()
      ensures Valid() && State() == Initial
    {
      snake := InitialSnake;
      food := InitialFood;
      direction := InitialDirection;
      gameOver := false;
      score := 0;
      isRunning := false;
    }

    /**
      Draws candidate cells until one is off the snake, and makes it the
      food. The random draws are the sequence `draws`.
     */
    method GenerateFood(draws: seq<Cell>)
      requires FoodSource(draws, snake)
      modifies this`food
      ensures food == draws[FirstFreeIndex(draws, snake)]
      ensures InGrid(food) && food !in snake
    {
      ghost var k := FirstFreeIndex(draws, snake);
      var i := 0;
      var newFood := draws[i];
      while newFood in snake
        invariant 0 <= i <= k && newFood == draws[i]
        decreases k - i
      {
        i := i + 1;
        newFood := draws[i];
      }
      food := newFood;
    }

    /** One firing of the game timer. */
    method Tick(draws: seq<Cell>)
      requires Valid()
      requires Eats(State()) ==> FoodSource(draws, snake)
      modifies this
      ensures Valid()
      ensures State() == Next(old(State()), draws)
    {
      if gameOver || !isRunning {
        return;
      }
      var newHead := snake[0];
      match direction {
        case Up => newHead := newHead.(y := newHead.y - 1);
        case Down => newHead := newHead.(y := newHead.y + 1);
        case Left => newHead := newHead.(x := newHead.x - 1);
        case Right => newHead := newHead.(x := newHead.x + 1);
      }
      assert newHead == NextHead(State());

      if newHead.x < 0 || newHead.x >= GridSize || newHead.y < 0 || newHead.y >= GridSize {
        gameOver := true;
        isRunning := false;
        return;
      }

      if newHead in snake {
        gameOver := true;
        isRunning := false;
        return;
      }

      var newSnake := [newHead] + snake;
      if newHead == food {
        score := score + 1;
        GenerateFood(draws);
      } else {
        newSnake := newSnake[..|newSnake| - 1];
        assert newSnake == [newHead] + snake[..|snake| - 1];
      }
      snake := newSnake;
      TickKeepsConsistent(old(State()), draws);
    }

    /** A direction button, or an arrow key, pressed. */
    method RequestDirection(requested: Direction)
      modifies this`direction
      ensures State() == old(State()).(direction := Steer(old(direction), requested))
      ensures requested == Opposite(old(direction)) ==> direction == old(direction)
    {
      match requested {
        case Up => if direction != Down { direction := Up; }
        case Down => if direction != Up { direction := Down; }
        case Left => if direction != Right { direction := Left; }
        case Right => if direction != Left { direction := Right; }
      }
    }

    /** The window key handler: arrow keys request a direction, any other
        key does nothing. */
    method HandleKey(key: string)
      modifies this`direction
      ensures KeyDirection(key).None? ==> direction == old(direction)
      ensures KeyDirection(key).Some? ==> direction == Steer(old(direction), KeyDirection(key).value)
    {
      var requested := KeyDirection(key);
      if requested.Some? {
        RequestDirection(requested.value);
      }
    }

    method Start()
      modifies this`isRunning
      ensures State() == old(State()).(isRunning := old(isRunning) || !gameOver)
      ensures gameOver ==> State() == old(State())
    {
      if !gameOver {
        isRunning := true;
      }
    }

    method Pause()
      modifies this`isRunning
      ensures State() == old(State()).(isRunning := false)
    {
      isRunning := false;
    }

    method Reset()
      modifies this
      ensures Valid() && State() == Initial
    {
      snake := InitialSnake;
      food := InitialFood;
      direction := InitialDirection;
      gameOver := false;
      score := 0;
      isRunning := false;
    }

    /** The table the component draws: one row per y, one cell per x. */
    method RenderGrid() returns (grid: seq<seq<CellView>>)
      ensures |grid| == GridSize
      ensures forall y :: 0 <= y < GridSize ==> |grid[y]| == GridSize
      ensures forall y, x :: 0 <= y < GridSize && 0 <= x < GridSize ==>
        grid[y][x] == CellClass(Cell(x, y), snake, food, gameOver)
    {
      grid := [];
      var y := 0;
      while y < GridSize
        invariant 0 <= y <= GridSize && |grid| == y
        invariant forall j :: 0 <= j < y ==> |grid[j]| == GridSize
        invariant forall j, x :: 0 <= j < y && 0 <= x < GridSize ==>
          grid[j][x] == CellClass(Cell(x, j), snake, food, gameOver)
      {
        var row := [];
        var x := 0;
        while x < GridSize
          invariant 0 <= x <= GridSize && |row| == x
          invariant forall i :: 0 <= i < x ==> row[i] == CellClass(Cell(i, y), snake, food, gameOver)
        {
          row := row + [CellClass(Cell(x, y), snake, food, gameOver)];
          x := x + 1;
        }
        grid := grid + [row];
        y := y + 1;
      }
    }
  }

  /** Up then Left pressed before the first tick after Start: both pass
      the guard, and the tick ends the game on the snake's second cell. */
  method QuickTurnEndsGame() returns (g: Game)
    ensures g.gameOver && !g.isRunning && g.snake == InitialSnake
  {
    g := new Game();
    g.Start();
    g.HandleKey("ArrowUp");
    g.HandleKey("ArrowLeft");
    g.Tick([]);
  }
}
