/** `validateMaze` of src/main.js: the checks every generated maze must pass, in the
    order the source makes them (outer ring, endpoints present, endpoints open, exit
    reachable). */
module Validator {
  import opened Grids
  import opened Search
  import opened Pathfinding

  datatype Reason = Border | MissingEndpoints | EndpointOnWall | Unreachable

  /** `{ ok: true, pathLength }` or `{ ok: false, reason }`. */
  datatype Verdict = Valid(pathLength: nat) | Invalid(reason: Reason)

  /** The first loop: row 0 and the last row hold 1 at every column from x on. */
  function RowsClosed(g: Grid, x: nat): (r: bool)
    requires IsGrid(g)
    decreases Width(g) - x
    ensures r <==> forall x' :: x <= x' < Width(g) ==> g[0][x'] == Wall && g[Height(g) - 1][x'] == Wall
  {
    if x >= Width(g) then true
    else
      assert |g[Height(g) - 1]| == Width(g);
      g[0][x] == Wall && g[Height(g) - 1][x] == Wall && RowsClosed(g, x + 1)
  }

  /** The second loop: column 0 and the last column hold 1 at every row from y on. */
  function ColumnsClosed(g: Grid, y: nat): (r: bool)
    requires IsGrid(g)
    decreases Height(g) - y
    ensures r <==> forall y' :: y <= y' < Height(g) ==> g[y'][0] == Wall && g[y'][Width(g) - 1] == Wall
  {
    if y >= Height(g) then true
    else g[y][0] == Wall && g[y][Width(g) - 1] == Wall && ColumnsClosed(g, y + 1)
  }

  /** The two border loops together accept exactly the grids whose outer ring is wall. */
  lemma BorderLoops(g: Grid)
    requires IsGrid(g)
    ensures RowsClosed(g, 0) && ColumnsClosed(g, 0) <==> RingIsWall(g)
  {
    if RowsClosed(g, 0) && ColumnsClosed(g, 0) {
      forall c | InBox(c, Width(g), Height(g)) && OnRing(c, Width(g), Height(g))
        ensures At(g, c) == Wall
      {
        if c.y == 0 || c.y == Height(g) - 1 {
          assert g[0][c.x] == Wall && g[Height(g) - 1][c.x] == Wall;
        } else {
          assert g[c.y][0] == Wall && g[c.y][Width(g) - 1] == Wall;
        }
      }
    }
    if RingIsWall(g) {
      forall x | 0 <= x < Width(g)
        ensures g[0][x] == Wall && g[Height(g) - 1][x] == Wall
      {
        assert At(g, Cell(x, 0)) == Wall;
        assert At(g, Cell(x, Height(g) - 1)) == Wall;
      }
      forall y | 0 <= y < Height(g)
        ensures g[y][0] == Wall && g[y][Width(g) - 1] == Wall
      {
        assert At(g, Cell(0, y)) == Wall;
        assert At(g, Cell(Width(g) - 1, y)) == Wall;
      }
      assert RowsClosed(g, 0) && ColumnsClosed(g, 0);
    }
  }

  /** `validateMaze(grid, start, exit)`. A missing endpoint is `None`; a present one
      must lie inside the grid, since the source indexes the grid with it. */
  function ValidateMaze(g: Grid, start: Option<Cell>, exit: Option<Cell>): (v: Verdict)
    requires IsGrid(g)
    requires start.Some? ==> InBox(start.value, Width(g), Height(g))
    requires exit.Some? ==> InBox(exit.value, Width(g), Height(g))
    ensures v == Invalid(Border) <==> !RingIsWall(g)
    ensures v == Invalid(MissingEndpoints) <==> RingIsWall(g) && (start.None? || exit.None?)
    ensures v == Invalid(EndpointOnWall) <==>
      RingIsWall(g) && start.Some? && exit.Some? && (At(g, start.value) == Wall || At(g, exit.value) == Wall)
    ensures v == Invalid(Unreachable) <==>
      RingIsWall(g) && start.Some? && exit.Some? && At(g, start.value) != Wall && At(g, exit.value) != Wall &&
      !Reachable(g, start.value, exit.value)
    ensures v.Valid? ==>
      RingIsWall(g) && start.Some? && exit.Some? && At(g, start.value) != Wall && At(g, exit.value) != Wall &&
      IsDistance(g, start.value, exit.value, v.pathLength)
  {
    BorderLoops(g);
    if !RowsClosed(g, 0) || !ColumnsClosed(g, 0) then Invalid(Border)
    else if start.None? || exit.None? then Invalid(MissingEndpoints)
    else if At(g, start.value) == Wall || At(g, exit.value) == Wall then Invalid(EndpointOnWall)
    else
      var pathLength := BfsPathLength(g, start.value, exit.value);
      if pathLength < 0 then Invalid(Unreachable)
      else Valid(pathLength)
  }

  /** A maze whose ring is wall, whose endpoints are open and whose exit is at BFS
      distance n from the start is accepted with path length n. The generators meet
      their validity claims through this lemma. */
  lemma AcceptedWith(g: Grid, start: Cell, exit: Cell, n: nat)
    requires IsGrid(g) && InBox(start, Width(g), Height(g)) && InBox(exit, Width(g), Height(g))
    requires RingIsWall(g) && At(g, start) != Wall && At(g, exit) != Wall
    requires IsDistance(g, start, exit, n)
    ensures ValidateMaze(g, Some(start), Some(exit)) == Valid(n)
  {
    var v := ValidateMaze(g, Some(start), Some(exit));
    assert Reachable(g, start, exit);
    assert v.Valid?;
    DistanceUnique(g, start, exit, n, v.pathLength);
  }

  /** Shortest-walk lengths are unique. */
  lemma DistanceUnique(g: Grid, s: Cell, t: Cell, m: int, n: int)
    requires IsGrid(g) && IsDistance(g, s, t, m) && IsDistance(g, s, t, n)
    ensures m == n
  {
    var p :| WalkFromTo(g, p, s, t) && |p| == m + 1;
    var q :| WalkFromTo(g, q, s, t) && |q| == n + 1;
  }
}
