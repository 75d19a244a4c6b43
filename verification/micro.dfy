/** The micro mazes of src/maze/variant2_hierarchical.js: `generateMicroMaze(11, rng,
    preset)`. An 11-by-11 block starts as walls with its odd-odd lattice cells open,
    a randomized depth-first traversal carves the passage between each newly reached
    lattice cell and the cell it came from, and then extra loops, rooms and meso
    loops open further cells, each driven by the same random stream. */
module Micro {
  import opened Grids
  import opened Prng

  /** The side of a block; `generateHierarchical` always passes 11. */
  const BlockSize: int := 11
  /** The number of lattice cells, 5 by 5. */
  const LatticeCount: int := 25

  /** A cell the traversal visits: both coordinates odd, inside the block. */
  predicate Lattice(c: Cell) {
    InBox(c, BlockSize, BlockSize) && c.x % 2 == 1 && c.y % 2 == 1
  }

  /** A cell inside the block's ring with exactly one odd coordinate: the only kind of
      cell that lies between two lattice cells. */
  predicate Passage(c: Cell) {
    1 <= c.x <= BlockSize - 2 && 1 <= c.y <= BlockSize - 2 && (c.x % 2 == 1) != (c.y % 2 == 1)
  }

  /** The two lattice cells a passage lies between: left and right of it, or above
      and below. */
  function Ends(m: Cell): (r: (Cell, Cell))
    requires Passage(m)
    ensures Lattice(r.0) && Lattice(r.1) && r.0 != r.1
  {
    if m.x % 2 == 0 then (Cell(m.x - 1, m.y), Cell(m.x + 1, m.y))
    else (Cell(m.x, m.y - 1), Cell(m.x, m.y + 1))
  }

  /** a and b are two apart in one direction. */
  predicate TwoApart(a: Cell, b: Cell) {
    (a.y == b.y && (a.x - b.x == 2 || b.x - a.x == 2)) ||
    (a.x == b.x && (a.y - b.y == 2 || b.y - a.y == 2))
  }

  /** The lattice neighbours of c in the order the source pushes them: left, right,
      up, down, each kept only when it is strictly inside the block. */
  function Steps(c: Cell): (r: seq<Cell>)
    requires Lattice(c)
    ensures forall n :: n in r <==> Lattice(n) && TwoApart(c, n)
  {
    (if c.x - 2 > 0 then [Cell(c.x - 2, c.y)] else []) +
    (if c.x + 2 < BlockSize then [Cell(c.x + 2, c.y)] else []) +
    (if c.y - 2 > 0 then [Cell(c.x, c.y - 2)] else []) +
    (if c.y + 2 < BlockSize then [Cell(c.x, c.y + 2)] else [])
  }

  /** `grid[(y + ny) / 2][(x + nx) / 2]`: the cell between two lattice neighbours is
      a passage, and those two are exactly its ends. */
  function Mid(a: Cell, b: Cell): (m: Cell)
    requires Lattice(a) && Lattice(b) && TwoApart(a, b)
    ensures Passage(m) && (Ends(m) == (a, b) || Ends(m) == (b, a))
  {
    Cell((a.x + b.x) / 2, (a.y + b.y) / 2)
  }

  /** The `cells` list: the lattice in row-major order. */
  function LatticeCells(): (r: seq<Cell>)
    ensures |r| == LatticeCount
    ensures forall i :: 0 <= i < |r| ==> Lattice(r[i])
  {
    seq(LatticeCount, i => Cell(1 + 2 * (i % 5), 1 + 2 * (i / 5)))
  }

  /** Every lattice cell is listed, at index 5 * (y / 2) + x / 2. */
  lemma LatticeListed(c: Cell)
    requires Lattice(c)
    ensures c in LatticeCells()
  {
    var i := 5 * (c.y / 2) + c.x / 2;
    assert LatticeCells()[i] == c;
  }

  /** The list is in the order of the source's nested loops. */
  lemma LatticeCellsSorted()
    ensures RowMajorSorted(LatticeCells())
  {
    var r := LatticeCells();
    forall i, j | 0 <= i < j < |r| ensures Before(r[i], r[j]) {
      assert i / 5 < j / 5 || (i / 5 == j / 5 && i % 5 < j % 5);
    }
  }

  /** The set of lattice cells not yet in visited. */
  ghost function Remaining(visited: set<Cell>): set<Cell> {
    set c | c in LatticeCells() && c !in visited
  }

  /** The lattice cells in a list without repeats are as many as the list is long. */
  lemma {:induction false} DistinctCount(s: seq<Cell>)
    requires forall i, j :: 0 <= i < j < |s| ==> s[i] != s[j]
    decreases |s|
    ensures |(set c | c in s)| == |s|
  {
    if |s| > 0 {
      var init := s[..|s| - 1];
      DistinctCount(init);
      assert (set c | c in s) == (set c | c in init) + {s[|s| - 1]};
      assert s[|s| - 1] !in init;
    }
  }

  /** The starting block: walls with the lattice open. */
  function Initial(): (g: Grid)
    ensures Shaped(g, BlockSize, BlockSize)
    ensures forall c :: InBox(c, BlockSize, BlockSize) ==> At(g, c) == if Lattice(c) then Open else Wall
  {
    seq(BlockSize, y => seq(BlockSize, x => if x % 2 == 1 && y % 2 == 1 then Open else Wall))
  }

  // ---------------------------------------------------------------------------
  // The depth-first carving.

  /** The carving state. The source keys its visited set by `cellIndex`, which
      numbers the lattice without collisions, so a set of cells stands for it. */
  datatype Carving = Carving(grid: Grid, visited: set<Cell>, stack: seq<Cell>, rng: Rng)

  /** Visited cells are lattice cells and the stack holds visited cells. */
  ghost predicate StackOk(s: Carving) {
    && (forall c :: c in s.visited ==> Lattice(c))
    && (forall i :: 0 <= i < |s.stack| ==> s.stack[i] in s.visited)
  }

  /** A visited cell that has left the stack has no unvisited lattice neighbour. */
  ghost predicate Closed(s: Carving) {
    forall c :: c in s.visited && c !in s.stack ==> Lattice(c) && forall n :: n in Steps(c) ==> n in s.visited
  }

  /** c is open or wall; open if it is a lattice cell, a wall if it is neither a
      lattice cell nor a passage, and open as a passage only between two visited
      cells. */
  ghost predicate CellOk(g: Grid, visited: set<Cell>, c: Cell)
    requires Shaped(g, BlockSize, BlockSize) && InBox(c, BlockSize, BlockSize)
  {
    && (At(g, c) == Open || At(g, c) == Wall)
    && (Lattice(c) ==> At(g, c) == Open)
    && (!Lattice(c) && !Passage(c) ==> At(g, c) == Wall)
    && (Passage(c) && At(g, c) == Open ==> Ends(c).0 in visited && Ends(c).1 in visited)
  }

  ghost predicate CellsOk(g: Grid, visited: set<Cell>)
    requires Shaped(g, BlockSize, BlockSize)
  {
    forall c :: InBox(c, BlockSize, BlockSize) ==> CellOk(g, visited, c)
  }

  /** One passage opened per visited cell but the first. */
  ghost predicate Counted(g: Grid, visited: set<Cell>) {
    |visited| >= 1 && CountMatrix(g, Open) == CountMatrix(Initial(), Open) + |visited| - 1
  }

  ghost predicate Inv(s: Carving) {
    && Shaped(s.grid, BlockSize, BlockSize)
    && StackOk(s) && Closed(s) && CellsOk(s.grid, s.visited) && Counted(s.grid, s.visited)
  }

  /** The cell on top of the stack has no unvisited neighbour: pop it. */
  function Pop(s: Carving): (r: Carving)
    requires Inv(s) && |s.stack| > 0
    requires |Unvisited(Steps(s.stack[|s.stack| - 1]), s.visited)| == 0
    ensures Inv(r) && r.visited == s.visited && |r.stack| < |s.stack|
  {
    var cur := s.stack[|s.stack| - 1];
    var r := s.(stack := s.stack[..|s.stack| - 1]);
    assert Unvisited(Steps(cur), s.visited) == [];
    PopKeeps(s, r);
    r
  }

  lemma PopKeeps(s: Carving, r: Carving)
    requires StackOk(s) && Closed(s) && |s.stack| > 0
    requires Lattice(s.stack[|s.stack| - 1])
    requires forall n :: n in Steps(s.stack[|s.stack| - 1]) ==> n in s.visited
    requires r == s.(stack := s.stack[..|s.stack| - 1])
    ensures StackOk(r) && Closed(r)
  {
    var cur := s.stack[|s.stack| - 1];
    assert s.stack == r.stack + [cur];
    forall i | 0 <= i < |r.stack| ensures r.stack[i] in r.visited {
      assert r.stack[i] == s.stack[i];
    }
    forall c | c in r.visited && c !in r.stack
      ensures Lattice(c) && forall n :: n in Steps(c) ==> n in r.visited
    {
      if c != cur {
        assert c !in s.stack;
      }
    }
  }

  /** Opening the passage to an unvisited neighbour keeps the cell facts and adds
      one open cell. */
  lemma AdvanceCells(g: Grid, visited: set<Cell>, cur: Cell, next: Cell)
    requires Shaped(g, BlockSize, BlockSize) && CellsOk(g, visited) && Counted(g, visited)
    requires cur in visited && Lattice(cur) && Lattice(next) && TwoApart(cur, next) && next !in visited
    ensures Shaped(Put(g, Mid(cur, next), Open), BlockSize, BlockSize)
    ensures CellsOk(Put(g, Mid(cur, next), Open), visited + {next})
    ensures Counted(Put(g, Mid(cur, next), Open), visited + {next})
  {
    var m := Mid(cur, next);
    var g2 := Put(g, m, Open);
    assert CellOk(g, visited, m);
    assert At(g, m) == Wall;
    forall c | InBox(c, BlockSize, BlockSize) ensures CellOk(g2, visited + {next}, c) {
      assert CellOk(g, visited, c);
      if c != m {
        assert At(g2, c) == At(g, c);
      }
    }
    PutCount(g, m, Open, Open);
    assert |visited + {next}| == |visited| + 1;
  }

  /** Pushing an unvisited neighbour keeps the stack facts. */
  lemma AdvanceStack(s: Carving, next: Cell, r: Carving)
    requires StackOk(s) && Closed(s) && Lattice(next) && next !in s.visited
    requires r.visited == s.visited + {next} && r.stack == s.stack + [next]
    ensures StackOk(r) && Closed(r)
  {
    forall c | c in r.visited && c !in r.stack
      ensures Lattice(c) && forall n :: n in Steps(c) ==> n in r.visited
    {
      assert c != next && c in s.visited && c !in s.stack;
    }
  }

  /** The cell on top of the stack has unvisited neighbours: draw one, open the
      passage to it and push it. */
  function Advance(s: Carving, un: seq<Cell>): (r: Carving)
    requires Inv(s) && |s.stack| > 0
    requires un == Unvisited(Steps(s.stack[|s.stack| - 1]), s.visited) && |un| > 0
    ensures Inv(r) && Remaining(r.visited) < Remaining(s.visited)
  {
    var cur := s.stack[|s.stack| - 1];
    var (i, rng') := IntBetween(s.rng, 0, |un| - 1);
    var next := un[i];
    assert next in un;
    var r := Carving(Put(s.grid, Mid(cur, next), Open), s.visited + {next}, s.stack + [next], rng');
    AdvanceCells(s.grid, s.visited, cur, next);
    AdvanceStack(s, next, r);
    LatticeListed(next);
    assert next in Remaining(s.visited) && next !in Remaining(r.visited);
    r
  }

  /** The `while (stack.length)` loop. */
  function Explore(s: Carving): (r: Carving)
    requires Inv(s)
    decreases Remaining(s.visited), |s.stack|
    ensures Inv(r) && r.stack == []
  {
    if |s.stack| == 0 then s
    else
      var un := Unvisited(Steps(s.stack[|s.stack| - 1]), s.visited);
      if |un| == 0 then Explore(Pop(s)) else Explore(Advance(s, un))
  }

  /** A set of lattice cells closed under lattice neighbours holds every lattice cell
      once it holds one: walk from c towards start two cells at a time. */
  lemma {:induction false} ClosedCovers(visited: set<Cell>, start: Cell, c: Cell)
    requires start in visited
    requires forall v :: v in visited ==> Lattice(v) && forall n :: n in Steps(v) ==> n in visited
    requires Lattice(c)
    decreases (if c.x < start.x then start.x - c.x else c.x - start.x) +
              (if c.y < start.y then start.y - c.y else c.y - start.y)
    ensures c in visited
  {
    if c != start {
      assert Lattice(start);
      var p :=
        if c.x < start.x then Cell(c.x + 2, c.y)
        else if c.x > start.x then Cell(c.x - 2, c.y)
        else if c.y < start.y then Cell(c.x, c.y + 2)
        else Cell(c.x, c.y - 2);
      ClosedCovers(visited, start, p);
      assert c in Steps(p);
    }
  }

  lemma InitKeeps(s: Carving)
    requires |s.stack| == 1 && s.grid == Initial() && Lattice(s.stack[0]) && s.visited == {s.stack[0]}
    ensures Inv(s)
  {
  }

  /** A finished traversal has visited all 25 lattice cells. */
  lemma FinishKeeps(s: Carving)
    requires StackOk(s) && Closed(s) && s.stack == [] && |s.visited| >= 1
    ensures s.visited == set c | c in LatticeCells()
    ensures |s.visited| == LatticeCount
  {
    var start :| start in s.visited;
    forall c | c in LatticeCells() ensures c in s.visited {
      ClosedCovers(s.visited, start, c);
    }
    forall c | c in s.visited ensures c in LatticeCells() {
      LatticeListed(c);
    }
    LatticeCellsSorted();
    SortedDistinct(LatticeCells());
    DistinctCount(LatticeCells());
  }

  /** Lattice cells open, every other cell a wall unless it is a passage, and no value
      but open or wall. */
  ghost predicate Carved(g: Grid)
    requires Shaped(g, BlockSize, BlockSize)
  {
    forall c :: InBox(c, BlockSize, BlockSize) ==>
      && (At(g, c) == Open || At(g, c) == Wall)
      && (Lattice(c) ==> At(g, c) == Open)
      && (!Lattice(c) && !Passage(c) ==> At(g, c) == Wall)
  }

  /** The depth-first part of `generateMicroMaze`: start at a drawn lattice cell and
      carve until the stack is empty. Every lattice cell stays open, only passages
      are opened, and exactly 24 of them are: one for each lattice cell reached after
      the first, since each carve reaches a new cell and its passage was still a
      wall. */
  function Carve(rng: Rng): (r: (Grid, Rng))
    ensures Shaped(r.0, BlockSize, BlockSize) && Carved(r.0)
    ensures CountMatrix(r.0, Open) == CountMatrix(Initial(), Open) + LatticeCount - 1
  {
    var (i, rng1) := IntBetween(rng, 0, LatticeCount - 1);
    var first := LatticeCells()[i];
    var s0 := Carving(Initial(), {first}, [first], rng1);
    InitKeeps(s0);
    var s := Explore(s0);
    FinishKeeps(s);
    CellsCarved(s.grid, s.visited);
    (s.grid, s.rng)
  }

  lemma CellsCarved(g: Grid, visited: set<Cell>)
    requires Shaped(g, BlockSize, BlockSize) && CellsOk(g, visited)
    ensures Carved(g)
  {
    forall c | InBox(c, BlockSize, BlockSize)
      ensures && (At(g, c) == Open || At(g, c) == Wall)
              && (Lattice(c) ==> At(g, c) == Open)
              && (!Lattice(c) && !Passage(c) ==> At(g, c) == Wall)
    {
      assert CellOk(g, visited, c);
    }
  }

  // ---------------------------------------------------------------------------
  // Extra loops, rooms and meso loops.

  /** The micro-maze settings of a hierarchical preset. */
  datatype Knobs = Knobs(loopChance: real, addRooms: bool, addMesoLoops: bool)

  /** Every cell that differs between g and g2 is open in g2. */
  ghost predicate Grows(g: Grid, g2: Grid)
    requires Shaped(g, BlockSize, BlockSize) && Shaped(g2, BlockSize, BlockSize)
  {
    forall c :: InBox(c, BlockSize, BlockSize) && At(g2, c) != At(g, c) ==> At(g2, c) == Open
  }

  /** Every cell that differs between g and g2 lies inside the block's ring. */
  ghost predicate InsideRing(g: Grid, g2: Grid)
    requires Shaped(g, BlockSize, BlockSize) && Shaped(g2, BlockSize, BlockSize)
  {
    forall c :: InBox(c, BlockSize, BlockSize) && At(g2, c) != At(g, c) ==>
      1 <= c.x <= BlockSize - 2 && 1 <= c.y <= BlockSize - 2
  }

  lemma GrowthCompose(g: Grid, g1: Grid, g2: Grid)
    requires Shaped(g, BlockSize, BlockSize) && Shaped(g1, BlockSize, BlockSize) && Shaped(g2, BlockSize, BlockSize)
    requires Grows(g, g1) && InsideRing(g, g1) && Grows(g1, g2) && InsideRing(g1, g2)
    ensures Grows(g, g2) && InsideRing(g, g2)
  {
    forall c | InBox(c, BlockSize, BlockSize) && At(g2, c) != At(g, c)
      ensures At(g2, c) == Open && 1 <= c.x <= BlockSize - 2 && 1 <= c.y <= BlockSize - 2
    {
      if At(g2, c) == At(g1, c) {
        assert At(g1, c) != At(g, c);
      }
    }
  }

  /** The four cells around lattice cell c, in the order the loop pass tries them. */
  function WallsAround(c: Cell): (r: seq<Cell>)
    requires Lattice(c)
    ensures forall d :: d in r <==> Adjacent(c, d)
  {
    [Cell(c.x + 1, c.y), Cell(c.x - 1, c.y), Cell(c.x, c.y + 1), Cell(c.x, c.y - 1)]
  }

  /** A cell of the block next to a lattice cell: exactly one odd coordinate. */
  predicate Edge(c: Cell) {
    InBox(c, BlockSize, BlockSize) && (c.x % 2 == 1) != (c.y % 2 == 1)
  }

  /** The cells the loop pass tries, lattice cell by lattice cell. */
  function LoopCandidates(cells: seq<Cell>): (r: seq<Cell>)
    requires forall i :: 0 <= i < |cells| ==> Lattice(cells[i])
    ensures forall d :: d in r ==> Edge(d)
  {
    if |cells| == 0 then []
    else
      AroundEdges(cells[0]);
      WallsAround(cells[0]) + LoopCandidates(cells[1..])
  }

  /** The four cells around a lattice cell lie next to it: each has one odd coordinate. */
  lemma AroundEdges(c: Cell)
    requires Lattice(c)
    ensures forall d :: d in WallsAround(c) ==> Edge(d)
  {
    assert (c.x + 1) % 2 == 0 && (c.x - 1) % 2 == 0;
    assert (c.y + 1) % 2 == 0 && (c.y - 1) % 2 == 0;
  }

  /** `if (grid[wy][wx] === 1 && rng.next() < p) { grid[wy][wx] = 0; extraLoops += 1; }`
      over the candidates in order; a value is drawn only at a wall. The count is the
      number of walls opened. */
  function PunchLoops(g: Grid, cells: seq<Cell>, p: real, rng: Rng): (r: (Grid, nat, Rng))
    requires Shaped(g, BlockSize, BlockSize)
    requires forall d :: d in cells ==> InBox(d, BlockSize, BlockSize)
    decreases |cells|
    ensures Shaped(r.0, BlockSize, BlockSize)
    ensures forall d :: InBox(d, BlockSize, BlockSize) && At(r.0, d) != At(g, d) ==>
      At(g, d) == Wall && At(r.0, d) == Open && d in cells
    ensures CountMatrix(r.0, Open) == CountMatrix(g, Open) + r.1
    ensures r.1 <= |cells|
  {
    if |cells| == 0 then (g, 0, rng)
    else
      var c := cells[0];
      assert c in cells;
      assert InBox(c, BlockSize, BlockSize);
      assert |g[c.y]| == BlockSize;
      assert forall d :: d in cells[1..] ==> d in cells;
      if At(g, c) == Wall then
        var (u, rng1) := Next(rng);
        if u < p then
          PutCount(g, c, Open, Open);
          var (g2, n, rng2) := PunchLoops(Put(g, c, Open), cells[1..], p, rng1);
          (g2, n + 1, rng2)
        else
          PunchLoops(g, cells[1..], p, rng1)
      else
        PunchLoops(g, cells[1..], p, rng)
  }

  /** The four cells of the room whose top-left corner is c. */
  function Square(c: Cell): (r: seq<Cell>)
    ensures forall d :: d in r <==> c.x <= d.x <= c.x + 1 && c.y <= d.y <= c.y + 1
  {
    [c, Cell(c.x, c.y + 1), Cell(c.x + 1, c.y), Cell(c.x + 1, c.y + 1)]
  }

  /** Open every cell of the list. */
  function OpenAll(g: Grid, cells: seq<Cell>): (r: Grid)
    requires Shaped(g, BlockSize, BlockSize)
    requires forall d :: d in cells ==> InBox(d, BlockSize, BlockSize)
    decreases |cells|
    ensures Shaped(r, BlockSize, BlockSize)
    ensures forall d :: InBox(d, BlockSize, BlockSize) ==>
      At(r, d) == if d in cells then Open else At(g, d)
  {
    if |cells| == 0 then g
    else
      assert cells[0] in cells;
      assert InBox(cells[0], BlockSize, BlockSize);
      assert |g[cells[0].y]| == BlockSize;
      assert forall d :: d in cells[1..] ==> d in cells;
      OpenAll(Put(g, cells[0], Open), cells[1..])
  }

  /** A room corner lies in [1, 8] on both axes, so the room lies in [1, 9]. */
  predicate RoomCorner(c: Cell) {
    1 <= c.x <= BlockSize - 3 && 1 <= c.y <= BlockSize - 3
  }

  /** d lies in the 2-by-2 room with top-left corner c. */
  predicate InSquare(d: Cell, c: Cell) {
    c.x <= d.x <= c.x + 1 && c.y <= d.y <= c.y + 1
  }

  /** d lies in one of the rooms with the given corners. */
  predicate InRooms(d: Cell, corners: seq<Cell>) {
    |corners| > 0 && (InSquare(d, corners[0]) || InRooms(d, corners[1..]))
  }

  lemma {:induction false} InRoomsInside(d: Cell, corners: seq<Cell>)
    requires forall k :: 0 <= k < |corners| ==> RoomCorner(corners[k])
    requires InRooms(d, corners)
    decreases |corners|
    ensures 1 <= d.x <= BlockSize - 2 && 1 <= d.y <= BlockSize - 2
  {
    assert RoomCorner(corners[0]);
    if !InSquare(d, corners[0]) {
      InRoomsInside(d, corners[1..]);
    }
  }

  /** Every room with a corner in corners is open in g. */
  ghost predicate RoomsOpen(g: Grid, corners: seq<Cell>)
    requires Shaped(g, BlockSize, BlockSize)
  {
    forall d :: InBox(d, BlockSize, BlockSize) && InRooms(d, corners) ==> At(g, d) == Open
  }

  /** Every cell that differs between g and g2 is open in g2 and in one of the rooms. */
  ghost predicate ChangedInRooms(g: Grid, g2: Grid, corners: seq<Cell>)
    requires Shaped(g, BlockSize, BlockSize) && Shaped(g2, BlockSize, BlockSize)
  {
    forall d :: InBox(d, BlockSize, BlockSize) && At(g2, d) != At(g, d) ==>
      At(g2, d) == Open && InRooms(d, corners)
  }

  /** `rx = rng.intBetween(1, size - 3)`, then `ry` the same way. */
  function DrawCorner(rng: Rng): (r: (Cell, Rng))
    ensures RoomCorner(r.0)
  {
    var (rx, rng1) := IntBetween(rng, 1, BlockSize - 3);
    var (ry, rng2) := IntBetween(rng1, 1, BlockSize - 3);
    (Cell(rx, ry), rng2)
  }

  /** The corners of count rooms, drawn one after the other. Opening a room draws
      nothing, so drawing every corner first gives the values the source's loop
      draws between its openings. */
  function DrawCorners(rng: Rng, count: nat): (r: (seq<Cell>, Rng))
    decreases count
    ensures |r.0| == count
    ensures forall k :: 0 <= k < |r.0| ==> RoomCorner(r.0[k])
  {
    if count == 0 then ([], rng)
    else
      var (corner, rng1) := DrawCorner(rng);
      var (rest, rng2) := DrawCorners(rng1, count - 1);
      ([corner] + rest, rng2)
  }

  /** Open the 2-by-2 room at each corner, in order: each room is open afterwards,
      and nothing outside the rooms changes. */
  function OpenRooms(g: Grid, corners: seq<Cell>): (r: Grid)
    requires Shaped(g, BlockSize, BlockSize)
    requires forall k :: 0 <= k < |corners| ==> RoomCorner(corners[k])
    decreases |corners|
    ensures Shaped(r, BlockSize, BlockSize)
    ensures RoomsOpen(r, corners) && ChangedInRooms(g, r, corners)
  {
    if |corners| == 0 then g
    else
      assert RoomCorner(corners[0]);
      var g1 := OpenAll(g, Square(corners[0]));
      var g2 := OpenRooms(g1, corners[1..]);
      RoomsStep(g, g1, g2, corners[0], corners[1..], corners);
      g2
  }

  /** The contract of OpenRooms for one more room in front of the rest. */
  lemma RoomsStep(g: Grid, g1: Grid, g2: Grid, corner: Cell, rest: seq<Cell>, all: seq<Cell>)
    requires Shaped(g, BlockSize, BlockSize) && Shaped(g1, BlockSize, BlockSize) && Shaped(g2, BlockSize, BlockSize)
    requires all == [corner] + rest
    requires forall d :: InBox(d, BlockSize, BlockSize) ==> At(g1, d) == if d in Square(corner) then Open else At(g, d)
    requires RoomsOpen(g2, rest) && ChangedInRooms(g1, g2, rest)
    ensures RoomsOpen(g2, all) && ChangedInRooms(g, g2, all)
  {
    assert all[0] == corner && all[1..] == rest;
    forall d | InBox(d, BlockSize, BlockSize) && InRooms(d, all) ensures At(g2, d) == Open {
      if InSquare(d, corner) {
        assert d in Square(corner);
      }
    }
    forall d | InBox(d, BlockSize, BlockSize) && At(g2, d) != At(g, d)
      ensures At(g2, d) == Open && InRooms(d, all)
    {
    }
  }

  /** One meso row: `for (x = 1; x < size - 1; x += 1) if (rng.next() < 0.2) grid[y][x] = 0`. */
  function MesoRow(g: Grid, y: int, x: int, rng: Rng): (r: (Grid, Rng))
    requires Shaped(g, BlockSize, BlockSize) && 0 <= y < BlockSize && 1 <= x
    decreases BlockSize - 1 - x
    ensures Shaped(r.0, BlockSize, BlockSize)
    ensures forall d :: InBox(d, BlockSize, BlockSize) && At(r.0, d) != At(g, d) ==>
      At(r.0, d) == Open && d.y == y && x <= d.x < BlockSize - 1
  {
    if x >= BlockSize - 1 then (g, rng)
    else
      var (u, rng1) := Next(rng);
      var g1 := if u < 0.2 then Put(g, Cell(x, y), Open) else g;
      MesoRow(g1, y, x + 1, rng1)
  }

  /** `for (let i = 0; i < 2; i += 1)`: draw a row in [2, 8] and run a meso row on it. */
  function MesoLoops(g: Grid, passes: nat, rng: Rng): (r: (Grid, Rng))
    requires Shaped(g, BlockSize, BlockSize)
    decreases passes
    ensures Shaped(r.0, BlockSize, BlockSize)
    ensures forall d :: InBox(d, BlockSize, BlockSize) && At(r.0, d) != At(g, d) ==>
      At(r.0, d) == Open && 2 <= d.y <= BlockSize - 3 && 1 <= d.x < BlockSize - 1
  {
    if passes == 0 then (g, rng)
    else
      var (y, rng1) := IntBetween(rng, 2, BlockSize - 3);
      var (g1, rng2) := MesoRow(g, y, 1, rng1);
      MesoLoops(g1, passes - 1, rng2)
  }

  /** `if (preset.addRooms)`: draw the room count in [1, 2] and add that many rooms. */
  function Rooms(g: Grid, add: bool, rng: Rng): (r: (Grid, Rng))
    requires Shaped(g, BlockSize, BlockSize)
    ensures Shaped(r.0, BlockSize, BlockSize) && Grows(g, r.0) && InsideRing(g, r.0)
    ensures !add ==> r == (g, rng)
  {
    if add then
      var (roomCount, rng1) := IntBetween(rng, 1, 2);
      var (corners, rng2) := DrawCorners(rng1, roomCount);
      var g1 := OpenRooms(g, corners);
      RoomsInside(g, g1, corners);
      (g1, rng2)
    else (g, rng)
  }

  /** Rooms only open cells, and only inside the block's ring. */
  lemma RoomsInside(g: Grid, g1: Grid, corners: seq<Cell>)
    requires Shaped(g, BlockSize, BlockSize) && Shaped(g1, BlockSize, BlockSize)
    requires forall k :: 0 <= k < |corners| ==> RoomCorner(corners[k])
    requires ChangedInRooms(g, g1, corners)
    ensures Grows(g, g1) && InsideRing(g, g1)
  {
    forall d | InBox(d, BlockSize, BlockSize) && At(g1, d) != At(g, d)
      ensures 1 <= d.x <= BlockSize - 2 && 1 <= d.y <= BlockSize - 2
    {
      InRoomsInside(d, corners);
    }
  }

  /** Rooms when the preset asks for them, then meso loops when it asks for those:
      both only open cells, and only inside the block's ring. */
  function Decorate(g: Grid, knobs: Knobs, rng: Rng): (r: (Grid, Rng))
    requires Shaped(g, BlockSize, BlockSize)
    ensures Shaped(r.0, BlockSize, BlockSize) && Grows(g, r.0) && InsideRing(g, r.0)
  {
    var (g1, rng1) := Rooms(g, knobs.addRooms, rng);
    var (g2, rng2) := if knobs.addMesoLoops then MesoLoops(g1, 2, rng1) else (g1, rng1);
    GrowthCompose(g, g1, g2);
    (g2, rng2)
  }

  /** `generateMicroMaze(11, rng, preset)`: the block keeps every lattice cell open
      and holds only open and wall cells; the extra-loop count is the number of walls
      the loop pass opened, on top of the 24 carved passages. */
  function MicroMaze(rng: Rng, knobs: Knobs): (r: (Grid, nat, Rng))
    ensures Shaped(r.0, BlockSize, BlockSize)
    ensures forall c :: Lattice(c) ==> At(r.0, c) == Open
    ensures forall c :: InBox(c, BlockSize, BlockSize) ==> At(r.0, c) == Open || At(r.0, c) == Wall
    ensures CountMatrix(r.0, Open) >= CountMatrix(Initial(), Open) + LatticeCount - 1 + r.1
  {
    var (g1, rng1) := Carve(rng);
    var (g2, loops, rng2) := PunchLoops(g1, LoopCandidates(LatticeCells()), knobs.loopChance, rng1);
    var (g3, rng3) := Decorate(g2, knobs, rng2);
    MicroFacts(g1, g2, g3, CountMatrix(Initial(), Open), loops);
    (g3, loops, rng3)
  }

  lemma MicroFacts(g1: Grid, g2: Grid, g3: Grid, base: int, loops: nat)
    requires Shaped(g1, BlockSize, BlockSize) && Shaped(g2, BlockSize, BlockSize) && Shaped(g3, BlockSize, BlockSize)
    requires Carved(g1) && CountMatrix(g1, Open) == base + LatticeCount - 1
    requires Grows(g1, g2) && CountMatrix(g2, Open) == CountMatrix(g1, Open) + loops
    requires Grows(g2, g3)
    ensures forall c :: Lattice(c) ==> At(g3, c) == Open
    ensures forall c :: InBox(c, BlockSize, BlockSize) ==> At(g3, c) == Open || At(g3, c) == Wall
    ensures CountMatrix(g3, Open) >= base + LatticeCount - 1 + loops
  {
    LatticeStays(g1, g2, g3);
    CountGrows(g2, g3);
  }

  /** Opening cells twice after carving keeps the lattice open and the cells binary. */
  lemma LatticeStays(g1: Grid, g2: Grid, g3: Grid)
    requires Shaped(g1, BlockSize, BlockSize) && Shaped(g2, BlockSize, BlockSize) && Shaped(g3, BlockSize, BlockSize)
    requires Carved(g1) && Grows(g1, g2) && Grows(g2, g3)
    ensures forall c :: Lattice(c) ==> At(g3, c) == Open
    ensures forall c :: InBox(c, BlockSize, BlockSize) ==> At(g3, c) == Open || At(g3, c) == Wall
  {
  }

  /** Opening cells never lowers the open count. */
  lemma CountGrows(g: Grid, g2: Grid)
    requires Shaped(g, BlockSize, BlockSize) && Shaped(g2, BlockSize, BlockSize) && Grows(g, g2)
    ensures CountMatrix(g2, Open) >= CountMatrix(g, Open)
  {
    forall y, x | 0 <= y < BlockSize && 0 <= x < BlockSize && g[y][x] == Open
      ensures g2[y][x] == Open
    {
      assert At(g, Cell(x, y)) == g[y][x] && At(g2, Cell(x, y)) == g2[y][x];
    }
    CountMatrixMonotone(g, g2, Open);
  }
}
