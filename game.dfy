/**
 * The snake and the game controller as objects over one grid. The snake is
 * handed its game on each call; the game owns the grid and the snake. Random
 * apple placement is replaced by a cell the caller supplies.
 */
module SnakeGame {
  import opened Options
  import opened Grids
  import opened Movement
  import opened Levels

  /** What the next tick does: nothing, end the game, eat the apple ahead, or step into an empty cell. */
  datatype Outcome = Idle | Collide | Eat | Step

  class Snake {
    const grid: Grid
    var bodyParts: seq<BodyPart>

    /** The single still part a reset leaves, in the middle of the grid. */
    function Start(): (r: BodyPart)
      ensures Vel(r) == (0, 0)
      ensures 0 <= grid.width - 2 * r.col <= 1 && 0 <= grid.height - 2 * r.row <= 1
      ensures grid.width >= 3 && grid.height >= 3 ==> grid.Inside(r.col, r.row)
    {
      BodyPart(grid.width / 2, grid.height / 2, 0, 0)
    }

    function Head(): BodyPart
      reads this
      requires |bodyParts| >= 1
    {
      bodyParts[0]
    }

    function Tail(): BodyPart
      reads this
      requires |bodyParts| >= 1
    {
      bodyParts[|bodyParts| - 1]
    }

    /**
     * A walled grid with an inside, a coherent body strictly inside the walls,
     * and Snake cells that are exactly the cells the body occupies.
     */
    ghost predicate Valid()
      reads this, grid, grid.cells
    {
      grid.Valid() && grid.Walled() && grid.width >= 3 && grid.height >= 3 &&
      Coherent(bodyParts, grid.cellVelocities) &&
      (forall x :: x in Positions(bodyParts) ==> grid.Inside(x.0, x.1)) &&
      (forall row, col :: 0 <= row < grid.height && 0 <= col < grid.width ==>
        (grid.cells[row, col] == SnakeCell <==> (col, row) in Positions(bodyParts)))
    }

    /** The cell the head moves into is inside the grid. */
    lemma TargetInBounds()
      requires Valid() && Vel(bodyParts[0]) != (0, 0)
      ensures grid.InBounds(Target(bodyParts).0, Target(bodyParts).1)
    {
      InPositions(bodyParts, 0);
    }

    ghost function Upcoming(): (r: Outcome)
      reads this, grid, grid.cells
      requires Valid()
      ensures r.Idle? <==> Vel(bodyParts[0]) == (0, 0)
      ensures Vel(bodyParts[0]) != (0, 0) && Target(bodyParts) in Positions(bodyParts) ==> r.Collide?
      ensures Vel(bodyParts[0]) != (0, 0) && grid.OnBorder(Target(bodyParts).0, Target(bodyParts).1) ==> r.Collide?
      ensures r.Eat? || r.Step? ==> grid.Inside(Target(bodyParts).0, Target(bodyParts).1) && Target(bodyParts) !in Positions(bodyParts)
    {
      if Vel(bodyParts[0]) == (0, 0) then Idle
      else
        TargetInBounds();
        match grid.cells[Target(bodyParts).1, Target(bodyParts).0]
        case WallCell => Collide
        case SnakeCell => Collide
        case AppleCell => Eat
        case EmptyCell => Step
    }

    constructor (grid: Grid)
      requires grid.Valid()
      modifies grid.cells
      ensures this.grid == grid && bodyParts == [Start()]
      ensures grid.GetCellValue(grid.width / 2, grid.height / 2) == SnakeCell
      ensures forall row, col :: 0 <= row < grid.height && 0 <= col < grid.width && (col, row) != (grid.width / 2, grid.height / 2) ==>
        grid.cells[row, col] == old(grid.cells[row, col])
    {
      this.grid := grid;
      bodyParts := [];
      new;
      Reset();
    }

    method Reset()
      requires grid.Valid()
      modifies this, grid.cells
      ensures bodyParts == [Start()]
      ensures grid.GetCellValue(Start().col, Start().row) == SnakeCell
      ensures forall row, col :: 0 <= row < grid.height && 0 <= col < grid.width && (col, row) != Pos(Start()) ==>
        grid.cells[row, col] == old(grid.cells[row, col])
    {
      SetupBodyParts();
    }

    method SetupBodyParts()
      requires grid.Valid()
      modifies this, grid.cells
      ensures bodyParts == [Start()]
      ensures grid.GetCellValue(Start().col, Start().row) == SnakeCell
      ensures forall row, col :: 0 <= row < grid.height && 0 <= col < grid.width && (col, row) != Pos(Start()) ==>
        grid.cells[row, col] == old(grid.cells[row, col])
    {
      bodyParts := [];
      AddBodyPart(BodyPart(grid.width / 2, grid.height / 2, 0, 0));
      grid.SetCellValue(Head().col, Head().row, SnakeCell);
    }

    method AddBodyPart(data: BodyPart)
      modifies this
      ensures bodyParts == old(bodyParts) + [data]
    {
      bodyParts := bodyParts + [data];
    }

    /**
     * A key press. While the game is over only Space acts, and it restarts the
     * game. Otherwise a direction key sets the head's velocity; when that changes
     * it, the game starts if it was not playing, and a body with followers
     * stamps the new velocity on the head's cell.
     */
    method SetVelocity(game: Game, key: Key, spawnCol: int, spawnRow: int)
      requires game.Valid() && game.snake == this
      requires game.isGameOver && key.Space? ==> grid.Inside(spawnCol, spawnRow) && (spawnCol, spawnRow) != Pos(Start())
      modifies this, grid, grid.cells, game
      ensures game.Valid()
      ensures old(game.isGameOver) && key.Space? ==> game.Restarted(spawnCol, spawnRow)
      ensures old(game.isGameOver) && !key.Space? ==>
        bodyParts == old(bodyParts) && grid.cellVelocities == old(grid.cellVelocities) &&
        game.Counters() == old(game.Counters()) && game.isGameOver && !game.isPlaying && game.apple == old(game.apple) &&
        game.lastUpdated == old(game.lastUpdated) &&
        forall row, col :: 0 <= row < grid.height && 0 <= col < grid.width ==> grid.cells[row, col] == old(grid.cells[row, col])
      ensures !old(game.isGameOver) ==>
        bodyParts == Turned(old(bodyParts), key) &&
        grid.cellVelocities == TurnedMarkers(old(bodyParts), old(grid.cellVelocities), key) &&
        game.isPlaying == (old(game.isPlaying) || Changes(old(bodyParts), key)) &&
        !game.isGameOver && game.Counters() == old(game.Counters()) && game.apple == old(game.apple) &&
        game.lastUpdated == old(game.lastUpdated) &&
        forall row, col :: 0 <= row < grid.height && 0 <= col < grid.width ==> grid.cells[row, col] == old(grid.cells[row, col])
    {
      if game.isGameOver {
        if key == Space {
          game.OnRestart(spawnCol, spawnRow);
        }
        return;
      }
      Steer(game, key);
      TurnKeepsGame(game, key);
    }

    /** A key press while the game is not over: the head turns, the game may start, a marker may be stamped. */
    method Steer(game: Game, key: Key)
      requires grid.Valid() && |bodyParts| >= 1
      modifies this, grid, game
      ensures grid.Valid()
      ensures bodyParts == Turned(old(bodyParts), key)
      ensures grid.cellVelocities == TurnedMarkers(old(bodyParts), old(grid.cellVelocities), key)
      ensures game.isPlaying == (old(game.isPlaying) || Changes(old(bodyParts), key))
      ensures game.isGameOver == old(game.isGameOver) && game.Counters() == old(game.Counters())
      ensures game.lastUpdated == old(game.lastUpdated) && game.apple == old(game.apple)
    {
      var lastVelocityX, lastVelocityY := bodyParts[0].velocityX, bodyParts[0].velocityY;
      var head := bodyParts[0];
      match key {
        case Up => head := head.(velocityX := 0, velocityY := 1);
        case Left => head := head.(velocityX := -1, velocityY := 0);
        case Down => head := head.(velocityX := 0, velocityY := -1);
        case Right => head := head.(velocityX := 1, velocityY := 0);
        case Space =>
        case Other =>
      }
      bodyParts := bodyParts[0 := head];
      if head.velocityX == lastVelocityX && head.velocityY == lastVelocityY {
        return;
      }
      if !game.isPlaying {
        game.OnGameStart();
      }
      if |bodyParts| > 1 {
        grid.SetCellVelocity(Clone(bodyParts[0]));
      }
    }

    /**
     * One tick of the snake: nothing while the head is still; game over when the
     * cell ahead is a wall or part of the body; otherwise, after growing by a
     * still part on the tail's cell when the cell ahead holds the apple, one
     * head-to-tail pass.
     */
    method Update(game: Game, spawnCol: int, spawnRow: int)
      requires game.Valid() && game.snake == this && !game.isGameOver
      requires Upcoming().Eat? ==> grid.InBounds(spawnCol, spawnRow) && grid.cells[spawnRow, spawnCol] == EmptyCell
      modifies this, grid, grid.cells, game
      ensures game.Valid() && game.lastUpdated == old(game.lastUpdated)
      ensures game.isGameOver <==> old(Upcoming()).Collide?
      ensures old(Upcoming()).Idle? || old(Upcoming()).Collide? ==>
        bodyParts == old(bodyParts) && grid.cellVelocities == old(grid.cellVelocities) &&
        game.Counters() == old(game.Counters()) && game.apple == old(game.apple)
      ensures old(Upcoming()).Collide? ==> !game.isPlaying
      ensures old(Upcoming()).Step? ==>
        bodyParts == MovedParts(old(bodyParts), old(grid.cellVelocities)) &&
        grid.cellVelocities == MovedMarkers(old(bodyParts), old(grid.cellVelocities)) &&
        game.Counters() == old(game.Counters()) && game.apple == old(game.apple) && game.isPlaying
      ensures old(Upcoming()).Eat? ==>
        bodyParts == MovedParts(Grown(old(bodyParts)), GrownMarkers(old(bodyParts), old(grid.cellVelocities))) &&
        grid.cellVelocities == MovedMarkers(Grown(old(bodyParts)), GrownMarkers(old(bodyParts), old(grid.cellVelocities))) &&
        game.Counters() == AfterApple(game.constants, old(game.Counters()), old(game.lastUpdated)) &&
        game.apple == (spawnCol, spawnRow) && game.isPlaying
      ensures forall row, col ::
        0 <= row < grid.height && 0 <= col < grid.width &&
        (col, row) !in Positions(bodyParts) && (col, row) !in old(Positions(bodyParts)) && (col, row) != game.apple
        ==> grid.cells[row, col] == old(grid.cells[row, col])
    {
      if bodyParts[0].velocityX == 0 && bodyParts[0].velocityY == 0 {
        return;
      }
      TargetInBounds();
      game.PlayingIfMoving();
      var head := Head();
      var nextCellValue := grid.GetCellValue(head.col + head.velocityX, head.row + head.velocityY);
      match nextCellValue {
        case WallCell =>
          game.OnGameOver();
        case SnakeCell =>
          game.OnGameOver();
        case AppleCell =>
          Grow(game, spawnCol, spawnRow);
        case EmptyCell =>
          Advance(game.apple);
      }
    }

    /** A tick into an empty cell: the pass alone. The apple, wherever it is, stays. */
    method Advance(ghost apple: (int, int))
      requires Valid() && Upcoming().Step? && grid.OnlyAppleAt(apple.0, apple.1)
      modifies this, grid, grid.cells
      ensures Valid() && grid.OnlyAppleAt(apple.0, apple.1) && Vel(bodyParts[0]) == Vel(old(bodyParts[0]))
      ensures bodyParts == MovedParts(old(bodyParts), old(grid.cellVelocities))
      ensures grid.cellVelocities == MovedMarkers(old(bodyParts), old(grid.cellVelocities))
      ensures forall row, col :: 0 <= row < grid.height && 0 <= col < grid.width ==>
        grid.cells[row, col] == if (col, row) in Positions(bodyParts) then SnakeCell
                                else if (col, row) in Positions(old(bodyParts)) then EmptyCell
                                else old(grid.cells[row, col])
    {
      StepFacts();
      MoveBodyParts();
      StepKeepsBoard(this, apple);
    }

    /** What the pass needs from a body about to step: a ready shape, with every part and landing cell in bounds. */
    lemma StepFacts()
      requires Valid() && (Upcoming().Step? || Upcoming().Eat?)
      ensures |bodyParts| >= 1 && NoClobber(bodyParts)
      ensures forall i :: 0 <= i < |bodyParts| ==>
        grid.InBounds(bodyParts[i].col, bodyParts[i].row) && grid.InBounds(Moved(bodyParts[i]).col, Moved(bodyParts[i]).row)
    {
      MoveReady(bodyParts, grid.cellVelocities);
      MovesInBounds(bodyParts);
    }

    /**
     * A tick onto the apple: the tail's velocity is stamped on its cell, a still
     * part is appended there, the game counts the apple and places a new one,
     * and then the pass runs over the longer body.
     */
    method Grow(game: Game, spawnCol: int, spawnRow: int)
      requires game.Valid() && game.snake == this && !game.isGameOver && Upcoming().Eat?
      requires grid.InBounds(spawnCol, spawnRow) && grid.cells[spawnRow, spawnCol] == EmptyCell
      modifies this, grid, grid.cells, game
      ensures game.Valid() && game.lastUpdated == old(game.lastUpdated)
      ensures game.isPlaying == old(game.isPlaying) && !game.isGameOver
      ensures bodyParts == MovedParts(Grown(old(bodyParts)), GrownMarkers(old(bodyParts), old(grid.cellVelocities)))
      ensures grid.cellVelocities == MovedMarkers(Grown(old(bodyParts)), GrownMarkers(old(bodyParts), old(grid.cellVelocities)))
      ensures game.Counters() == AfterApple(game.constants, old(game.Counters()), old(game.lastUpdated))
      ensures game.apple == (spawnCol, spawnRow)
      ensures forall row, col :: 0 <= row < grid.height && 0 <= col < grid.width ==>
        grid.cells[row, col] == if (col, row) in Positions(bodyParts) then SnakeCell
                                else if (col, row) == (spawnCol, spawnRow) then AppleCell
                                else old(grid.cells[row, col])
    {
      ghost var parts, apple := bodyParts, game.apple;
      GrowFacts();
      game.PlayingIfMoving();
      ReachedStep(game.constants, game.Counters(), game.lastUpdated);
      var tail := Tail();
      grid.SetCellVelocity(Clone(tail));
      AddBodyPart(BodyPart(tail.col, tail.row, 0, 0));
      assert bodyParts == Grown(parts);
      game.OnAppleEaten(spawnCol, spawnRow);
      MoveBodyParts();
      GrowKeepsBoard(this, apple, (spawnCol, spawnRow));
    }

    /** What the pass needs from a body about to grow: the grown body has a ready shape, in bounds. */
    lemma GrowFacts()
      requires Valid() && Upcoming().Eat?
      ensures |Grown(bodyParts)| >= 1 && NoClobber(Grown(bodyParts))
      ensures forall i :: 0 <= i < |Grown(bodyParts)| ==>
        grid.InBounds(Grown(bodyParts)[i].col, Grown(bodyParts)[i].row) &&
        grid.InBounds(Moved(Grown(bodyParts)[i]).col, Moved(Grown(bodyParts)[i]).row)
    {
      GrowReady(bodyParts, grid.cellVelocities);
      MovesInBounds(Grown(bodyParts));
    }

    /** Every part of a ready body inside the grid, and its landing cell, are in bounds. */
    lemma MovesInBounds(parts: seq<BodyPart>)
      requires grid.Valid() && |parts| >= 1
      requires forall x :: x in Positions(parts) ==> grid.Inside(x.0, x.1)
      requires grid.Inside(Target(parts).0, Target(parts).1)
      requires forall i :: 1 <= i < |parts| ==> Pos(Moved(parts[i])) == Pos(parts[i - 1])
      ensures forall i :: 0 <= i < |parts| ==>
        grid.InBounds(parts[i].col, parts[i].row) && grid.InBounds(Moved(parts[i]).col, Moved(parts[i]).row)
    {
      forall i | 0 <= i < |parts|
        ensures grid.InBounds(parts[i].col, parts[i].row) && grid.InBounds(Moved(parts[i]).col, Moved(parts[i]).row)
      {
        InPositions(parts, i);
        if i > 0 { InPositions(parts, i - 1); }
      }
    }

    /**
     * The head-to-tail pass: each part in turn clears its cell, moves by its own
     * velocity and marks its new cell; every part but the head then takes the
     * velocity of a marker on its new cell, and the tail removes that marker.
     */
    method MoveBodyParts()
      requires grid.Valid() && |bodyParts| >= 1 && NoClobber(bodyParts)
      requires forall i :: 0 <= i < |bodyParts| ==>
        grid.InBounds(bodyParts[i].col, bodyParts[i].row) && grid.InBounds(Moved(bodyParts[i]).col, Moved(bodyParts[i]).row)
      modifies this, grid, grid.cells
      ensures grid.Valid()
      ensures bodyParts == MovedParts(old(bodyParts), old(grid.cellVelocities))
      ensures grid.cellVelocities == MovedMarkers(old(bodyParts), old(grid.cellVelocities))
      ensures forall row, col :: 0 <= row < grid.height && 0 <= col < grid.width ==>
        grid.cells[row, col] == if (col, row) in Positions(bodyParts) then SnakeCell
                                else if (col, row) in Positions(old(bodyParts)) then EmptyCell
                                else old(grid.cells[row, col])
    {
      ghost var parts, markers := bodyParts, grid.cellVelocities;
      ghost var entered: set<(int, int)> := {};
      ghost var vacated: set<(int, int)> := {};
      var n := |bodyParts|;
      var i := 0;
      while i < n
        invariant 0 <= i <= n && |bodyParts| == n
        invariant grid.Valid()
        invariant forall k :: 0 <= k < i ==> bodyParts[k] == Advanced(parts, markers, k)
        invariant forall k :: i <= k < n ==> bodyParts[k] == parts[k]
        invariant grid.cellVelocities == if i == n then MovedMarkers(parts, markers) else markers
        invariant entered == Positions(bodyParts[..i]) && vacated == Positions(parts[..i])
        invariant forall row, col :: 0 <= row < grid.height && 0 <= col < grid.width ==>
          grid.cells[row, col] == if (col, row) in entered then SnakeCell
                                  else if (col, row) in vacated then EmptyCell
                                  else old(grid.cells[row, col])
      {
        ghost var done := bodyParts[..i];
        NotReentered(parts, markers, done, i);
        AdvancedPos(parts, markers, i);
        MovePart(i, parts, markers);
        PositionsPrefix(parts, i);
        PositionsAppend(done, Advanced(parts, markers, i));
        entered := entered + {Pos(Moved(parts[i]))};
        vacated := vacated + {Pos(parts[i])};
        assert bodyParts[..i + 1] == done + [Advanced(parts, markers, i)];
        i := i + 1;
      }
      assert bodyParts[..n] == bodyParts && parts[..n] == parts;
    }

    /**
     * Part `i`'s turn in the pass: it clears its cell, moves by its own velocity
     * and marks its new cell; unless it is the head it then takes the velocity
     * of a marker on its new cell, and if it is the tail it removes that marker.
     */
    method MovePart(i: int, ghost parts: seq<BodyPart>, ghost markers: seq<CellVelocity>)
      requires grid.Valid() && 0 <= i < |bodyParts| == |parts| && bodyParts[i] == parts[i]
      requires grid.cellVelocities == markers
      requires grid.InBounds(parts[i].col, parts[i].row) && grid.InBounds(Moved(parts[i]).col, Moved(parts[i]).row)
      modifies this, grid, grid.cells
      ensures grid.Valid()
      ensures bodyParts == old(bodyParts)[i := Advanced(parts, markers, i)]
      ensures grid.cellVelocities == if i == |parts| - 1 then MovedMarkers(parts, markers) else markers
      ensures forall row, col :: 0 <= row < grid.height && 0 <= col < grid.width ==>
        grid.cells[row, col] == if (col, row) == Pos(Moved(parts[i])) then SnakeCell
                                else if (col, row) == Pos(parts[i]) then EmptyCell
                                else old(grid.cells[row, col])
    {
      var bodyPart := bodyParts[i];
      grid.SetCellValue(bodyPart.col, bodyPart.row, EmptyCell);
      bodyPart := bodyPart.(col := bodyPart.col + bodyPart.velocityX, row := bodyPart.row + bodyPart.velocityY);
      grid.SetCellValue(bodyPart.col, bodyPart.row, SnakeCell);
      if i != 0 {
        var cellVelocity := grid.GetCellVelocity(bodyPart.col, bodyPart.row);
        if cellVelocity.Some? {
          bodyPart := bodyPart.(velocityX := cellVelocity.value.velocityX, velocityY := cellVelocity.value.velocityY);
          if i == |bodyParts| - 1 {
            grid.RemoveCellVelocity(cellVelocity.value.col, cellVelocity.value.row);
          }
        }
      }
      bodyParts := bodyParts[i := bodyPart];
    }

    /** A part moved earlier in the pass never lands on the cell a later part is about to vacate. */
    lemma NotReentered(parts: seq<BodyPart>, markers: seq<CellVelocity>, done: seq<BodyPart>, i: int)
      requires 0 <= i < |parts| && |done| == i && NoClobber(parts)
      requires forall k :: 0 <= k < i ==> done[k] == Advanced(parts, markers, k)
      ensures Pos(parts[i]) !in Positions(done)
    {
      forall k | 0 <= k < i ensures Pos(done[k]) != Pos(parts[i]) {
        AdvancedPos(parts, markers, k);
      }
    }
  }

  /**
   * A pass between cells inside the walls, from a board whose Snake cells are
   * the vacated ones, with an apple on a cell inside the walls that is neither
   * entered nor vacated and every other old apple under an entered cell, keeps
   * the walls, leaves that apple the only one and Snake exactly on the entered
   * cells.
   */
  twostate lemma PassKeepsBoard(grid: Grid, new apple: (int, int), new entered: set<(int, int)>, new vacated: set<(int, int)>)
    requires old(grid.Valid()) && grid.Valid() && old(grid.Walled())
    requires forall x :: x in entered ==> grid.Inside(x.0, x.1)
    requires forall x :: x in vacated ==> grid.Inside(x.0, x.1)
    requires grid.Inside(apple.0, apple.1) && apple !in entered && apple !in vacated
    requires forall row, col :: 0 <= row < grid.height && 0 <= col < grid.width ==>
      (old(grid.cells[row, col]) == SnakeCell <==> (col, row) in vacated)
    requires forall row, col :: 0 <= row < grid.height && 0 <= col < grid.width && old(grid.cells[row, col]) == AppleCell ==>
      (col, row) == apple || (col, row) in entered
    requires forall row, col :: 0 <= row < grid.height && 0 <= col < grid.width ==>
      grid.cells[row, col] == if (col, row) in entered then SnakeCell
                              else if (col, row) in vacated then EmptyCell
                              else if (col, row) == apple then AppleCell
                              else old(grid.cells[row, col])
    ensures grid.Walled() && grid.OnlyAppleAt(apple.0, apple.1)
    ensures forall row, col :: 0 <= row < grid.height && 0 <= col < grid.width ==>
      (grid.cells[row, col] == SnakeCell <==> (col, row) in entered)
  {
  }

  /**
   * A pass into an empty cell leaves a valid snake: the moved body is coherent
   * and inside the walls, its Snake cells are the cells it now covers, and the
   * apple, on neither the old body nor the cell ahead, is untouched.
   */
  twostate lemma StepKeepsBoard(snake: Snake, new apple: (int, int))
    requires old(snake.Valid()) && old(snake.Upcoming().Step?) && old(snake.grid.OnlyAppleAt(apple.0, apple.1))
    requires snake.grid.Valid()
    requires snake.bodyParts == MovedParts(old(snake.bodyParts), old(snake.grid.cellVelocities))
    requires snake.grid.cellVelocities == MovedMarkers(old(snake.bodyParts), old(snake.grid.cellVelocities))
    requires forall row, col :: 0 <= row < snake.grid.height && 0 <= col < snake.grid.width ==>
      snake.grid.cells[row, col] == if (col, row) in Positions(snake.bodyParts) then SnakeCell
                                    else if (col, row) in Positions(old(snake.bodyParts)) then EmptyCell
                                    else old(snake.grid.cells[row, col])
    ensures snake.Valid() && snake.grid.OnlyAppleAt(apple.0, apple.1)
  {
    var grid := snake.grid;
    var parts, markers := old(snake.bodyParts), old(grid.cellVelocities);
    var target := Target(parts);
    assert Coherent(snake.bodyParts, grid.cellVelocities) && Positions(snake.bodyParts) <= {target} + Positions(parts)
    by {
      MoveKeepsCoherent(parts, markers);
    }
    assert apple !in Positions(parts) && apple != target;
    PassKeepsBoard(grid, apple, Positions(snake.bodyParts), Positions(parts));
  }

  /**
   * A tick onto the apple leaves a valid snake: the grown and moved body is
   * coherent, still moving and inside the walls, covers the old body and the
   * old apple's cell, its Snake cells are the cells it now covers, and the
   * new apple is the only one.
   */
  twostate lemma GrowKeepsBoard(snake: Snake, new apple: (int, int), new spawn: (int, int))
    requires old(snake.Valid()) && old(snake.Upcoming().Eat?) && old(snake.grid.OnlyAppleAt(apple.0, apple.1))
    requires snake.grid.InBounds(spawn.0, spawn.1) && old(snake.grid.cells[spawn.1, spawn.0]) == EmptyCell
    requires snake.grid.Valid()
    requires snake.bodyParts ==
      MovedParts(Grown(old(snake.bodyParts)), GrownMarkers(old(snake.bodyParts), old(snake.grid.cellVelocities)))
    requires snake.grid.cellVelocities ==
      MovedMarkers(Grown(old(snake.bodyParts)), GrownMarkers(old(snake.bodyParts), old(snake.grid.cellVelocities)))
    requires forall row, col :: 0 <= row < snake.grid.height && 0 <= col < snake.grid.width ==>
      snake.grid.cells[row, col] == if (col, row) in Positions(snake.bodyParts) then SnakeCell
                                    else if (col, row) in Positions(Grown(old(snake.bodyParts))) then EmptyCell
                                    else if (col, row) == spawn then AppleCell
                                    else old(snake.grid.cells[row, col])
    ensures snake.Valid() && snake.grid.OnlyAppleAt(spawn.0, spawn.1) && IsUnit(Vel(snake.bodyParts[0]))
    ensures Positions(snake.bodyParts) == {Target(old(snake.bodyParts))} + Positions(old(snake.bodyParts))
    ensures forall row, col :: 0 <= row < snake.grid.height && 0 <= col < snake.grid.width ==>
      snake.grid.cells[row, col] == if (col, row) in Positions(snake.bodyParts) then SnakeCell
                                    else if (col, row) == spawn then AppleCell
                                    else old(snake.grid.cells[row, col])
  {
    var grid := snake.grid;
    var parts, markers := old(snake.bodyParts), old(grid.cellVelocities);
    var target := Target(parts);
    assert Coherent(snake.bodyParts, grid.cellVelocities) &&
      Positions(snake.bodyParts) == {target} + Positions(parts) && Positions(Grown(parts)) == Positions(parts)
    by {
      GrowKeepsCoherent(parts, markers);
      GrowFootprint(parts);
    }
    assert apple == target;
    assert spawn !in Positions(parts) && spawn != target;
    PassKeepsBoard(grid, spawn, Positions(snake.bodyParts), Positions(parts));
  }

  /**
   * A turn keeps the game valid: the turned body is coherent on the same cells,
   * and a game that starts playing has a moving head.
   */
  twostate lemma TurnKeepsGame(game: Game, new key: Key)
    requires old(game.Valid()) && !old(game.isGameOver)
    requires game.grid.Valid()
    requires game.snake.bodyParts == Turned(old(game.snake.bodyParts), key)
    requires game.grid.cellVelocities == TurnedMarkers(old(game.snake.bodyParts), old(game.grid.cellVelocities), key)
    requires game.isPlaying == (old(game.isPlaying) || Changes(old(game.snake.bodyParts), key))
    requires game.isGameOver == old(game.isGameOver) && game.Counters() == old(game.Counters()) && game.apple == old(game.apple)
    requires forall row, col :: 0 <= row < game.grid.height && 0 <= col < game.grid.width ==>
      game.grid.cells[row, col] == old(game.grid.cells[row, col])
    ensures game.Valid()
  {
    TurnKeepsCoherent(old(game.snake.bodyParts), old(game.grid.cellVelocities), key);
  }

  class Game {
    const constants: Constants
    const grid: Grid
    const snake: Snake
    var shouldUpdate: bool
    var updateDelay: int
    var applesEaten: int
    var lastUpdated: Option<real>
    var lastLevelUp: Option<real>
    var isMaxLevel: bool
    var isPlaying: bool
    var isGameOver: bool
    /** The cell holding the apple. */
    ghost var apple: (int, int)

    /** The level counters as a value. */
    function Counters(): Progress
      reads this
    {
      Progress(updateDelay, applesEaten, lastLevelUp, isMaxLevel)
    }

    /**
     * The game's invariant: a valid snake on this game's grid; counters that
     * follow the level formula; never playing and over at once; a playing snake
     * moves; before the first move the snake is a single still part in the
     * middle with fresh counters and no markers; one apple.
     */
    ghost predicate Valid()
      reads this, snake, grid, grid.cells
    {
      constants.Valid() &&
      grid.width == constants.worldWidth && grid.height == constants.worldHeight &&
      snake.grid == grid && snake.Valid() &&
      Reached(constants, Counters()) &&
      !(isPlaying && isGameOver) &&
      (isPlaying ==> IsUnit(Vel(snake.bodyParts[0]))) &&
      (!isPlaying && !isGameOver ==>
        snake.bodyParts == [snake.Start()] && grid.cellVelocities == [] && Counters() == Initial(constants)) &&
      grid.OnlyAppleAt(apple.0, apple.1)
    }

    /** The state a restart leaves, with the apple at (col, row). */
    ghost predicate Restarted(col: int, row: int)
      reads this, snake, grid, grid.cells
      requires grid.Valid()
    {
      snake.bodyParts == [snake.Start()] && grid.cellVelocities == [] &&
      Counters() == Initial(constants) && lastUpdated.None? &&
      !isPlaying && !isGameOver && apple == (col, row) &&
      forall r, c :: 0 <= r < grid.height && 0 <= c < grid.width ==>
        grid.cells[r, c] == if grid.OnBorder(c, r) then WallCell
                            else if (c, r) == Pos(snake.Start()) then SnakeCell
                            else if (c, r) == (col, row) then AppleCell
                            else EmptyCell
    }

    constructor (constants: Constants, spawnCol: int, spawnRow: int)
      requires constants.Valid()
      requires 0 < spawnCol < constants.worldWidth - 1 && 0 < spawnRow < constants.worldHeight - 1
      requires (spawnCol, spawnRow) != (constants.worldWidth / 2, constants.worldHeight / 2)
      ensures Valid() && Restarted(spawnCol, spawnRow)
      ensures this.constants == constants && fresh(grid) && fresh(grid.cells) && fresh(snake)
    {
      this.constants := constants;
      var g := new Grid(constants.worldWidth, constants.worldHeight);
      grid := g;
      snake := new Snake(g);
      isPlaying := false;
      isGameOver := false;
      new;
      Reset();
      SpawnApple(spawnCol, spawnRow);
      RestartedIsValid(spawnCol, spawnRow);
    }

    /** A restarted game with its apple inside the walls, off the snake, is valid. */
    lemma RestartedIsValid(col: int, row: int)
      requires constants.Valid() && grid.width == constants.worldWidth && grid.height == constants.worldHeight
      requires snake.grid == grid && grid.Valid()
      requires grid.Inside(col, row) && (col, row) != Pos(snake.Start())
      requires Restarted(col, row)
      ensures Valid()
    {
      InitialReached(constants);
      assert Positions(snake.bodyParts) == {Pos(snake.Start())} by {
        InPositions(snake.bodyParts, 0);
      }
    }

    /** A moving snake means the game has started. */
    lemma PlayingIfMoving()
      requires Valid() && Vel(snake.bodyParts[0]) != (0, 0)
      ensures isPlaying || isGameOver
    {
    }

    /** Puts the counters back to their start values. */
    method Reset()
      modifies this
      ensures Counters() == Initial(constants) && lastUpdated.None? && shouldUpdate
      ensures isPlaying == old(isPlaying) && isGameOver == old(isGameOver) && apple == old(apple)
    {
      shouldUpdate := true;
      updateDelay := constants.maxUpdateDelay;
      applesEaten := 0;
      lastUpdated := None;
      lastLevelUp := None;
      isMaxLevel := false;
    }

    /** Places the apple in the empty cell (col, row), which stands for the random draw. */
    method SpawnApple(col: int, row: int)
      requires grid.Valid() && grid.InBounds(col, row) && grid.GetCellValue(col, row) == EmptyCell
      modifies this, grid.cells
      ensures apple == (col, row) && grid.GetCellValue(col, row) == AppleCell
      ensures forall r, c :: 0 <= r < grid.height && 0 <= c < grid.width && (c, r) != (col, row) ==>
        grid.cells[r, c] == old(grid.cells[r, c])
      ensures Counters() == old(Counters()) && lastUpdated == old(lastUpdated)
      ensures isPlaying == old(isPlaying) && isGameOver == old(isGameOver)
    {
      grid.SetCellValue(col, row, AppleCell);
      apple := (col, row);
    }

    /** One more apple eaten: the counters advance, possibly a level, and a new apple is placed. */
    method OnAppleEaten(col: int, row: int)
      requires constants.Valid()
      requires grid.Valid() && grid.InBounds(col, row) && grid.GetCellValue(col, row) == EmptyCell
      modifies this, grid.cells
      ensures Counters() == AfterApple(constants, old(Counters()), old(lastUpdated))
      ensures apple == (col, row) && grid.GetCellValue(col, row) == AppleCell
      ensures forall r, c :: 0 <= r < grid.height && 0 <= c < grid.width && (c, r) != (col, row) ==>
        grid.cells[r, c] == old(grid.cells[r, c])
      ensures lastUpdated == old(lastUpdated) && isPlaying == old(isPlaying) && isGameOver == old(isGameOver)
    {
      applesEaten := applesEaten + 1;
      if applesEaten % constants.applesPerLevel == 0 && !isMaxLevel {
        updateDelay := MaxOf(updateDelay - constants.updateDelayDecrement, constants.minUpdateDelay);
        lastLevelUp := lastUpdated;
        isMaxLevel := updateDelay == constants.minUpdateDelay;
      }
      SpawnApple(col, row);
    }

    method OnGameStart()
      modifies this
      ensures isPlaying && isGameOver == old(isGameOver)
      ensures Counters() == old(Counters()) && lastUpdated == old(lastUpdated) && apple == old(apple)
    {
      isPlaying := true;
    }

    method OnGameOver()
      modifies this
      ensures !isPlaying && isGameOver
      ensures Counters() == old(Counters()) && lastUpdated == old(lastUpdated) && apple == old(apple)
    {
      isPlaying := false;
      isGameOver := true;
    }

    /** Resets grid, snake and counters, leaves the game-over state and places an apple at (col, row). */
    method OnRestart(col: int, row: int)
      requires Valid() && isGameOver
      requires grid.Inside(col, row) && (col, row) != Pos(snake.Start())
      modifies this, grid, grid.cells, snake
      ensures Valid() && Restarted(col, row)
    {
      grid.Reset();
      snake.Reset();
      Reset();
      isGameOver := false;
      SpawnApple(col, row);
      RestartedIsValid(col, row);
    }

    /** The part of a frame that matters to the game: the snake moves unless the game is over. */
    method Update(spawnCol: int, spawnRow: int)
      requires Valid()
      requires !isGameOver && snake.Upcoming().Eat? ==>
        grid.InBounds(spawnCol, spawnRow) && grid.cells[spawnRow, spawnCol] == EmptyCell
      modifies this, grid, grid.cells, snake
      ensures Valid()
      ensures old(isGameOver) ==>
        isGameOver && snake.bodyParts == old(snake.bodyParts) && grid.cellVelocities == old(grid.cellVelocities) &&
        Counters() == old(Counters()) && apple == old(apple) &&
        forall r, c :: 0 <= r < grid.height && 0 <= c < grid.width ==> grid.cells[r, c] == old(grid.cells[r, c])
      ensures !old(isGameOver) ==> (isGameOver <==> old(snake.Upcoming()).Collide?)
      ensures !old(isGameOver) && old(snake.Upcoming()).Eat? ==>
        Counters() == AfterApple(constants, old(Counters()), old(lastUpdated)) && apple == (spawnCol, spawnRow)
      ensures !(!old(isGameOver) && old(snake.Upcoming()).Eat?) ==> Counters() == old(Counters())
    {
      if !isGameOver {
        snake.Update(this, spawnCol, spawnRow);
      }
    }
  }
}
