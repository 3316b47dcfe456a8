/** The walkable grid of the isometric scene: its fixed dimensions, the obstacle
    map drawn once when the scene is created, and the walkability test that
    keyboard steps, click targets and the planner share. */
module Grid {

  /** A grid cell (x is the column, y the row); also used for a step between two cells. */
  datatype Cell = Cell(x: int, y: int)

  const GridWidth: int := 96
  const GridHeight: int := 48

  /** An obstacle map of the scene's size: obstacles[y][x] says whether cell (x, y) is blocked. */
  ghost predicate Shaped(obstacles: seq<seq<bool>>) {
    |obstacles| == GridHeight && forall y :: 0 <= y < |obstacles| ==> |obstacles[y]| == GridWidth
  }

  /** A map the scene can hold: the right size, and the spawn cell (0, 0) free. */
  ghost predicate ObstacleGrid(obstacles: seq<seq<bool>>) {
    Shaped(obstacles) && !obstacles[0][0]
  }

  /** The scene's isValidMove: in bounds and not an obstacle. */
  predicate IsValidMove(obstacles: seq<seq<bool>>, x: int, y: int)
    requires Shaped(obstacles)
  {
    x >= 0 && x < GridWidth && y >= 0 && y < GridHeight && !obstacles[y][x]
  }

  /** The scene's isValidTarget, written out separately in the scene as well. */
  predicate IsValidTarget(obstacles: seq<seq<bool>>, target: Cell)
    requires Shaped(obstacles)
  {
    target.x >= 0 && target.x < GridWidth &&
    target.y >= 0 && target.y < GridHeight &&
    !obstacles[target.y][target.x]
  }

  /** The two walkability tests are one predicate, and a walkable cell is on the grid. */
  lemma ValidTargetIsValidMove(obstacles: seq<seq<bool>>, c: Cell)
    requires Shaped(obstacles)
    ensures IsValidTarget(obstacles, c) <==> IsValidMove(obstacles, c.x, c.y)
    ensures IsValidMove(obstacles, c.x, c.y) ==> 0 <= c.x < GridWidth && 0 <= c.y < GridHeight
  {
  }

  /** The spawn cell of the player is walkable on every map the scene can hold. */
  lemma OriginIsWalkable(obstacles: seq<seq<bool>>)
    requires ObstacleGrid(obstacles)
    ensures IsValidMove(obstacles, 0, 0) && IsValidTarget(obstacles, Cell(0, 0))
  {
  }

  /** Builds the obstacle map row by row. draws[y][x] stands for the outcome of the
      per-cell random trial (a draw below 0.2); the origin is never blocked. */
  method DrawObstacles(draws: seq<seq<bool>>) returns (obstacles: seq<seq<bool>>)
    requires Shaped(draws)
    ensures ObstacleGrid(obstacles)
    ensures forall y, x :: 0 <= y < GridHeight && 0 <= x < GridWidth ==>
              obstacles[y][x] == (draws[y][x] && (x != 0 || y != 0))
  {
    obstacles := [];
    for y := 0 to GridHeight
      invariant |obstacles| == y
      invariant forall r :: 0 <= r < y ==> |obstacles[r]| == GridWidth
      invariant forall r, x :: 0 <= r < y && 0 <= x < GridWidth ==>
                  obstacles[r][x] == (draws[r][x] && (x != 0 || r != 0))
    {
      var row: seq<bool> := [];
      for x := 0 to GridWidth
        invariant |row| == x
        invariant forall c :: 0 <= c < x ==> row[c] == (draws[y][c] && (c != 0 || y != 0))
      {
        row := row + [draws[y][x] && (x != 0 || y != 0)];
      }
      obstacles := obstacles + [row];
    }
  }
}
