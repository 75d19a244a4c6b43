/** The hierarchical generator of src/maze/variant2_hierarchical.js: a spanning
    tree over a 9 x 5 grid of blocks, one 11 x 11 micro maze per block, the blocks
    stitched into a wall grid, one door across every tree edge, the outer ring made
    wall again, a start in the top-left block and an exit in the bottom-right one. */
module Hierarchical {
  import opened Grids
  import opened Prng
  import opened Search
  import opened Pathfinding
  import opened Validator
  import Doors
  import Macro
  import Micro
  import Division

  /** The smallest grid the blocks fit in: one ring column or row, then 9 x 5 blocks. */
  const MinWidth: int := 1 + Macro.MacroW * Micro.BlockSize
  const MinHeight: int := 1 + Macro.MacroH * Micro.BlockSize

  /** A rectangular grid at least as large as the block area. */
  predicate Roomy(g: Grid) {
    IsGrid(g) && Width(g) >= MinWidth && Height(g) >= MinHeight
  }

  /** One entry of `PRESETS`. */
  datatype HPreset = HPreset(knobs: Micro.Knobs, doorsPerEdge: nat)

  function PresetOf(p: Doors.PresetName): (r: HPreset)
    ensures r.doorsPerEdge == 1
  {
    match p
    case A => HPreset(Micro.Knobs(0.1, false, false), 1)
    case B => HPreset(Micro.Knobs(0.25, true, false), 1)
    case C => HPreset(Micro.Knobs(0.1, false, true), 1)
  }

  // ---------------------------------------------------------------------------
  // Blocks
  // ---------------------------------------------------------------------------

  /** What every micro maze guarantees: 11 x 11, only open and wall cells, and
      every lattice cell (both local coordinates odd) open. */
  ghost predicate GoodBlock(b: Grid) {
    && Shaped(b, Micro.BlockSize, Micro.BlockSize)
    && (forall c :: Micro.Lattice(c) ==> At(b, c) == Open)
    && (forall c :: InBox(c, Micro.BlockSize, Micro.BlockSize) ==> At(b, c) == Open || At(b, c) == Wall)
  }

  /** The block loop: n micro mazes drawn one after another from one generator,
      block k of the result being the k-th drawn, with their extra loops summed.
      The micro-maze generator is a parameter; only its guarantee is used. */
  function MakeBlocks(micro: Rng -> (Grid, nat, Rng), n: nat, rng: Rng): (r: (seq<Grid>, nat, Rng))
    requires forall rng :: GoodBlock(micro(rng).0)
    decreases n
    ensures |r.0| == n
    ensures forall b :: 0 <= b < n ==> GoodBlock(r.0[b])
  {
    if n == 0 then ([], 0, rng)
    else
      var m := micro(rng);
      var rest := MakeBlocks(micro, n - 1, m.2);
      GoodCons(m.0, rest.0);
      ([m.0] + rest.0, m.1 + rest.1, rest.2)
  }

  /** Every micro maze is a good block. */
  lemma MicroGood(knobs: Micro.Knobs)
    ensures forall rng :: GoodBlock(Micro.MicroMaze(rng, knobs).0)
  {
  }

  lemma GoodCons(block: Grid, rest: seq<Grid>)
    requires GoodBlock(block)
    requires forall b :: 0 <= b < |rest| ==> GoodBlock(rest[b])
    ensures forall b :: 0 <= b < |rest| + 1 ==> GoodBlock(([block] + rest)[b])
  {
    forall b | 0 <= b < |rest| + 1
      ensures GoodBlock(([block] + rest)[b])
    {
      if b > 0 {
        assert ([block] + rest)[b] == rest[b - 1];
      }
    }
  }

  /** Cell l of block b in the stitched grid: block b sits in column b % 9 and row
      b / 9 of the block area, whose corner is (1, 1). */
  function Offset(b: int, l: Cell): Cell {
    Cell(1 + Micro.BlockSize * (b % Macro.MacroW) + l.x, 1 + Micro.BlockSize * (b / Macro.MacroW) + l.y)
  }

  /** The block area: columns 1 .. 99 and rows 1 .. 55. */
  predicate InBlocks(c: Cell) {
    1 <= c.x < MinWidth && 1 <= c.y < MinHeight
  }

  /** Cell c lies in the block at column bcol and row brow of the block area. */
  predicate InBlock(c: Cell, bcol: int, brow: int) {
    && 1 + bcol * Micro.BlockSize <= c.x < 1 + bcol * Micro.BlockSize + Micro.BlockSize
    && 1 + brow * Micro.BlockSize <= c.y < 1 + brow * Micro.BlockSize + Micro.BlockSize
  }

  /** A w x h wall grid with every block copied into its place. */
  function Stitch(w: nat, h: nat, blocks: seq<Grid>): (g: Grid)
    requires w >= MinWidth && h >= MinHeight
    requires |blocks| == Macro.Total
    requires forall b :: 0 <= b < Macro.Total ==> Shaped(blocks[b], Micro.BlockSize, Micro.BlockSize)
    ensures Roomy(g) && Width(g) == w && Height(g) == h
    ensures forall c :: InBox(c, w, h) && !InBlocks(c) ==> At(g, c) == Wall
  {
    seq(h, y requires 0 <= y < h =>
      seq(w, x requires 0 <= x < w =>
        if InBlocks(Cell(x, y)) then BlockCell(blocks, Cell(x, y)) else Wall))
  }

  /** The block cell that lands on c of the block area. */
  function BlockCell(blocks: seq<Grid>, c: Cell): int
    requires |blocks| == Macro.Total
    requires forall b :: 0 <= b < Macro.Total ==> Shaped(blocks[b], Micro.BlockSize, Micro.BlockSize)
    requires InBlocks(c)
  {
    var k := ((c.y - 1) / Micro.BlockSize) * Macro.MacroW + (c.x - 1) / Micro.BlockSize;
    assert 0 <= k < Macro.Total;
    assert Shaped(blocks[k], Micro.BlockSize, Micro.BlockSize);
    blocks[k][(c.y - 1) % Micro.BlockSize][(c.x - 1) % Micro.BlockSize]
  }

  /** Every block lands verbatim at its offset. */
  lemma StitchVerbatim(w: nat, h: nat, blocks: seq<Grid>, b: int, l: Cell)
    requires w >= MinWidth && h >= MinHeight
    requires |blocks| == Macro.Total
    requires forall b :: 0 <= b < Macro.Total ==> Shaped(blocks[b], Micro.BlockSize, Micro.BlockSize)
    requires 0 <= b < Macro.Total && InBox(l, Micro.BlockSize, Micro.BlockSize)
    ensures InBlocks(Offset(b, l)) && InBox(Offset(b, l), w, h)
    ensures At(Stitch(w, h, blocks), Offset(b, l)) == At(blocks[b], l)
  {
    var c := Offset(b, l);
    var bcol, brow := b % Macro.MacroW, b / Macro.MacroW;
    assert c.x - 1 == Micro.BlockSize * bcol + l.x;
    assert c.y - 1 == Micro.BlockSize * brow + l.y;
    assert (c.x - 1) / Micro.BlockSize == bcol && (c.x - 1) % Micro.BlockSize == l.x;
    assert (c.y - 1) / Micro.BlockSize == brow && (c.y - 1) % Micro.BlockSize == l.y;
    assert brow * Macro.MacroW + bcol == b;
  }

  // ---------------------------------------------------------------------------
  // Doors
  // ---------------------------------------------------------------------------

  /** `[1, 3, 5, 7, 9]`: the local offsets a door may take along the shared edge,
      the odd ones, which are lattice rows or columns in both blocks. */
  const DoorOffsets: seq<int> := [1, 3, 5, 7, 9]

  function DrawOffset(rng: Rng): (r: (int, Rng))
    ensures r.0 in DoorOffsets
    ensures r.1 == NextUint32(rng).1
  {
    var (k, rng1) := IntBetween(rng, 0, |DoorOffsets| - 1);
    (DoorOffsets[k], rng1)
  }

  /** The four cells a door from block a to block b at offset t opens, in the
      order they are written: the two cells on either side of the shared edge,
      then one further into a and one further into b. */
  function DoorCells(a: int, b: int, t: int): seq<Cell> {
    var acol, arow := a % Macro.MacroW, a / Macro.MacroW;
    var bcol, brow := b % Macro.MacroW, b / Macro.MacroW;
    if acol == bcol then
      var boundaryY := if arow < brow then arow * Micro.BlockSize + Micro.BlockSize else arow * Micro.BlockSize;
      var x := 1 + acol * Micro.BlockSize + t;
      var y1, y2 := 1 + boundaryY - 1, 1 + boundaryY;
      [Cell(x, y1), Cell(x, y2), Cell(x, y1 - 1), Cell(x, y2 + 1)]
    else
      var boundaryX := if acol < bcol then acol * Micro.BlockSize + Micro.BlockSize else acol * Micro.BlockSize;
      var x1, x2 := 1 + boundaryX - 1, 1 + boundaryX;
      var y := 1 + arow * Micro.BlockSize + t;
      [Cell(x1, y), Cell(x2, y), Cell(x1 - 1, y), Cell(x2 + 1, y)]
  }

  /** The macro edges only join blocks next to each other, so every door between
      a block and a later one is a straight corridor of four cells: from the
      lattice cell at offset t on a's side, across the two edge cells, to the
      lattice cell at offset t on b's side. */
  lemma DoorJoinsLattices(a: int, b: int, t: int)
    requires 0 <= a < b < Macro.Total && Adjacent(Macro.Pos(a), Macro.Pos(b))
    requires t in DoorOffsets
    ensures |DoorCells(a, b, t)| == 4
    ensures Macro.Pos(a).x == Macro.Pos(b).x ==>
      && DoorCells(a, b, t)[2] == Offset(a, Cell(t, 9)) && DoorCells(a, b, t)[0] == Offset(a, Cell(t, 10))
      && DoorCells(a, b, t)[1] == Offset(b, Cell(t, 0)) && DoorCells(a, b, t)[3] == Offset(b, Cell(t, 1))
    ensures Macro.Pos(a).x != Macro.Pos(b).x ==>
      && DoorCells(a, b, t)[2] == Offset(a, Cell(9, t)) && DoorCells(a, b, t)[0] == Offset(a, Cell(10, t))
      && DoorCells(a, b, t)[1] == Offset(b, Cell(0, t)) && DoorCells(a, b, t)[3] == Offset(b, Cell(1, t))
    ensures Micro.Lattice(Cell(t, 9)) && Micro.Lattice(Cell(t, 1)) && Micro.Lattice(Cell(9, t)) && Micro.Lattice(Cell(1, t))
    ensures Adjacent(DoorCells(a, b, t)[2], DoorCells(a, b, t)[0])
    ensures Adjacent(DoorCells(a, b, t)[0], DoorCells(a, b, t)[1])
    ensures Adjacent(DoorCells(a, b, t)[1], DoorCells(a, b, t)[3])
    ensures forall k :: 0 <= k < 4 ==> InBlocks(DoorCells(a, b, t)[k])
  {
    var acol, arow := a % Macro.MacroW, a / Macro.MacroW;
    var bcol, brow := b % Macro.MacroW, b / Macro.MacroW;
    assert a == arow * Macro.MacroW + acol && b == brow * Macro.MacroW + bcol;
    if acol == bcol {
      assert brow == arow + 1;
    } else {
      assert arow == brow && bcol == acol + 1;
    }
  }

  /** One door: draw the offset, then open its four cells. */
  function CarveDoor(g: Grid, a: int, b: int, rng: Rng): (r: (Grid, int, Rng))
    requires Roomy(g)
    requires 0 <= a <= b < Macro.Total && Adjacent(Macro.Pos(a), Macro.Pos(b))
    ensures Roomy(r.0) && Width(r.0) == Width(g) && Height(r.0) == Height(g)
    ensures r.1 in DoorOffsets && r.2 == NextUint32(rng).1
    ensures forall c :: c in DoorCells(a, b, r.1) ==> Interior(c, Width(g), Height(g)) && At(r.0, c) == Open
    ensures forall c :: InBox(c, Width(g), Height(g)) && At(r.0, c) != At(g, c) ==> c in DoorCells(a, b, r.1)
    ensures OpensInside(g, r.0)
  {
    var (t, rng1) := DrawOffset(rng);
    var cells := DoorCells(a, b, t);
    DoorCellsInside(a, b, t);
    DoorInside(cells, Width(g), Height(g));
    (OpenCells(g, cells), t, rng1)
  }

  /** The door cells lie strictly inside the block area, away from its last
      column and row, so inside the ring of any grid the blocks fit in. */
  predicate InsideBlocks(c: Cell) {
    1 <= c.x < MinWidth - 1 && 1 <= c.y < MinHeight - 1
  }

  lemma DoorCellsInside(a: int, b: int, t: int)
    requires 0 <= a < b < Macro.Total && Adjacent(Macro.Pos(a), Macro.Pos(b))
    requires t in DoorOffsets
    ensures |DoorCells(a, b, t)| == 4
    ensures forall k :: 0 <= k < 4 ==> InsideBlocks(DoorCells(a, b, t)[k])
  {
    var acol, arow := a % Macro.MacroW, a / Macro.MacroW;
    var bcol, brow := b % Macro.MacroW, b / Macro.MacroW;
    assert a == arow * Macro.MacroW + acol && b == brow * Macro.MacroW + bcol;
    if acol == bcol {
      assert brow == arow + 1;
    } else {
      assert arow == brow && bcol == acol + 1;
    }
  }

  lemma DoorInside(cells: seq<Cell>, w: int, h: int)
    requires w >= MinWidth && h >= MinHeight
    requires forall k :: 0 <= k < |cells| ==> InsideBlocks(cells[k])
    ensures forall c :: c in cells ==> InBox(c, w, h) && Interior(c, w, h)
  {
  }

  /** The writes of one door: every listed cell that lies in the grid becomes
      open. The two cells beyond the edge go through `carveDoorConnection`, which
      skips a cell outside the grid; the two edge cells are written directly, and
      they always lie inside (`DoorCellsInside`). */
  function OpenCells(g: Grid, cells: seq<Cell>): (r: Grid)
    requires IsGrid(g)
    ensures IsGrid(r) && Width(r) == Width(g) && Height(r) == Height(g)
    ensures forall c :: c in cells && InBox(c, Width(g), Height(g)) ==> At(r, c) == Open
    ensures forall c :: InBox(c, Width(g), Height(g)) && At(r, c) != At(g, c) ==> c in cells && At(r, c) == Open
  {
    seq(Height(g), y requires 0 <= y < Height(g) =>
      seq(Width(g), x requires 0 <= x < Width(g) => if Cell(x, y) in cells then Open else g[y][x]))
  }

  /** The inner door loop for block a: every listed neighbour n >= a gets a door;
      the count is the number of such neighbours. */
  function DoorsAt(g: Grid, a: int, ns: seq<int>, rng: Rng): (r: (Grid, nat, Rng))
    requires Roomy(g) && 0 <= a < Macro.Total
    requires forall n :: n in ns ==> 0 <= n < Macro.Total && Adjacent(Macro.Pos(a), Macro.Pos(n))
    decreases |ns|
    ensures Roomy(r.0) && Width(r.0) == Width(g) && Height(r.0) == Height(g)
    ensures OpensInside(g, r.0)
    ensures r.1 == |Macro.Upper(ns, a)|
  {
    if |ns| == 0 then (g, 0, rng)
    else
      assert ns[0] in ns && forall n :: n in ns[1..] ==> n in ns;
      if ns[0] < a then DoorsAt(g, a, ns[1..], rng)
      else
      var (g1, _, rng1) := CarveDoor(g, a, ns[0], rng);
      var (g2, count, rng2) := DoorsAt(g1, a, ns[1..], rng1);
      OpensInsideTrans(g, g1, g2);
      (g2, count + 1, rng2)
  }

  /** Every listed neighbour is a block next to the listing block. */
  ghost predicate EdgesAdjacent(edges: seq<seq<int>>) {
    && |edges| == Macro.Total
    && forall a, b {:trigger b in edges[a]} :: 0 <= a < Macro.Total && b in edges[a] ==>
         0 <= b < Macro.Total && Adjacent(Macro.Pos(a), Macro.Pos(b))
  }

  /** The outer door loop from block idx on. */
  function DoorsFrom(g: Grid, edges: seq<seq<int>>, idx: nat, rng: Rng): (r: (Grid, nat, Rng))
    requires Roomy(g) && EdgesAdjacent(edges)
    decreases Macro.Total - idx
    ensures Roomy(r.0) && Width(r.0) == Width(g) && Height(r.0) == Height(g)
    ensures OpensInside(g, r.0)
    ensures r.1 == Macro.UpperFrom(edges, idx)
  {
    if idx >= Macro.Total then (g, 0, rng)
    else
      var (g1, n1, rng1) := DoorsAt(g, idx, edges[idx], rng);
      var (g2, n2, rng2) := DoorsFrom(g1, edges, idx + 1, rng1);
      OpensInsideTrans(g, g1, g2);
      (g2, n1 + n2, rng2)
  }

  /** The whole door loop over a spanning tree: one door per tree edge, so 44
      edges' worth of `doorCountPerMacroEdge`, and nothing but interior cells
      opened. */
  function PlaceDoors(g: Grid, edges: seq<seq<int>>, perEdge: nat, rng: Rng): (r: (Grid, nat, Rng))
    requires Roomy(g) && Macro.SpanningTree(edges)
    ensures Roomy(r.0) && Width(r.0) == Width(g) && Height(r.0) == Height(g)
    ensures OpensInside(g, r.0)
    ensures r.1 == (Macro.Total - 1) * perEdge
  {
    var (g1, count, rng1) := DoorsFrom(g, edges, 0, rng);
    (g1, count * perEdge, rng1)
  }


  // ---------------------------------------------------------------------------
  // Start and exit
  // ---------------------------------------------------------------------------

  /** The cells of the block at column bcol and row brow, row by row. */
  function BlockCells(bcol: int, brow: int): (r: seq<Cell>)
    ensures forall c :: c in r <==> InBlock(c, bcol, brow)
    ensures RowMajorSorted(r)
  {
    var x0, y0 := 1 + bcol * Micro.BlockSize, 1 + brow * Micro.BlockSize;
    Scan(x0, x0 + Micro.BlockSize, y0, y0 + Micro.BlockSize)
  }

  /** The start block is the top-left one, the exit block the bottom-right one. */
  predicate InStartBlock(c: Cell) {
    InBlock(c, 0, 0)
  }

  predicate InExitBlock(c: Cell) {
    InBlock(c, Macro.MacroW - 1, Macro.MacroH - 1)
  }

  /** The start-candidate loop: the open cells of the start block, row by row. */
  function StartCandidates(g: Grid): (r: seq<Cell>)
    requires Roomy(g)
    ensures forall c :: c in r <==> InStartBlock(c) && InBox(c, Width(g), Height(g)) && At(g, c) == Open
  {
    var cells := BlockCells(0, 0);
    assert forall c :: c in cells ==> InMatrix(g, c);
    OpenAmong(g, cells)
  }

  /** The start draw: one candidate by index. There is a start exactly when the
      start block has an open cell. */
  function PickStart(g: Grid, rng: Rng): (r: (Option<Cell>, Rng))
    requires Roomy(g)
    ensures r.0.Some? <==> exists c :: InStartBlock(c) && InBox(c, Width(g), Height(g)) && At(g, c) == Open
    ensures r.0.Some? ==> InStartBlock(r.0.value) && InBox(r.0.value, Width(g), Height(g)) && At(g, r.0.value) == Open
  {
    var candidates := StartCandidates(g);
    assert (exists c :: InStartBlock(c) && InBox(c, Width(g), Height(g)) && At(g, c) == Open) ==> |candidates| > 0;
    Choice(rng, candidates)
  }

  /** `findFarthestInBlock`: the first cell in row-major order at the largest
      distance found in the block, or nothing when no cell of the block was
      reached. Skipping unreached cells (-1) changes nothing, since the best
      distance starts at -1 and only a larger one replaces it. */
  function FindFarthestInBlock(dist: seq<seq<int>>, bcol: int, brow: int): (r: Option<(Cell, int)>)
    requires forall c :: InBlock(c, bcol, brow) ==> InMatrix(dist, c)
    ensures r.None? <==> forall c :: InBlock(c, bcol, brow) ==> At(dist, c) <= -1
    ensures r.Some? ==> InBlock(r.value.0, bcol, brow) && At(dist, r.value.0) == r.value.1 >= 0
    ensures r.Some? ==> forall c :: InBlock(c, bcol, brow) ==> At(dist, c) <= r.value.1
    ensures r.Some? ==> forall c :: InBlock(c, bcol, brow) && Before(c, r.value.0) ==> At(dist, c) < r.value.1
  {
    var (cell, d) := MaxScan(dist, BlockCells(bcol, brow), -1, Cell(0, 0));
    if d == -1 then None else Some((cell, d))
  }

  /** Where the exit lies: in the exit block whenever some cell of it can be
      reached, and then a farthest reachable cell of that block; otherwise a
      farthest reachable cell of the whole grid. Either way it is the first such
      cell in row-major order. */
  ghost predicate ExitPlaced(g: Grid, start: Cell, exit: Cell, n: int)
    requires IsGrid(g)
  {
    && ((exists c :: InExitBlock(c) && InBox(c, Width(g), Height(g)) && Reachable(g, start, c)) ==>
          && InExitBlock(exit)
          && forall c, m :: InExitBlock(c) && InBox(c, Width(g), Height(g)) && IsDistance(g, start, c, m) ==>
               m <= n && (Before(c, exit) ==> m < n))
    && ((forall c :: InExitBlock(c) && InBox(c, Width(g), Height(g)) ==> !Reachable(g, start, c)) ==>
          forall c, m :: InBox(c, Width(g), Height(g)) && IsDistance(g, start, c, m) ==>
            m <= n && (Before(c, exit) ==> m < n))
  }

  /** The search from the start, then the choice of the exit from its table. */
  function PickExit(g: Grid, start: Cell): (r: (Cell, int))
    requires Roomy(g) && InBox(start, Width(g), Height(g)) && At(g, start) == Open
    ensures InBox(r.0, Width(g), Height(g)) && r.1 >= 0 && At(g, r.0) != Wall
    ensures IsDistance(g, start, r.0, r.1)
    ensures ExitPlaced(g, start, r.0, r.1)
  {
    var res := Bfs(g, start);
    ExitFromTable(g, start, res)
  }

  /** The exit-block scan, and the whole-grid scan when it finds nothing: that scan
      starts from the start cell at distance 0 and moves only to a strictly
      larger distance. */
  function ExitFromTable(g: Grid, start: Cell, res: BfsResult): (r: (Cell, int))
    requires Roomy(g) && InBox(start, Width(g), Height(g)) && At(g, start) == Open
    requires BfsTree(g, start, res.dist, res.parent) && AllSettled(g, res.dist)
    ensures InBox(r.0, Width(g), Height(g)) && r.1 >= 0 && At(g, r.0) != Wall
    ensures IsDistance(g, start, r.0, r.1)
    ensures ExitPlaced(g, start, r.0, r.1)
  {
    var found := FindFarthestInBlock(res.dist, Macro.MacroW - 1, Macro.MacroH - 1);
    if found.Some? then
      BlockExitFacts(g, start, res.dist, res.parent, found.value.0, found.value.1);
      found.value
    else
      UnreachedBlock(g, start, res.dist, res.parent);
      var (exit, distance) := MaxScan(res.dist, AllCells(res.dist), 0, start);
      FallbackFacts(g, start, res.dist, res.parent, exit, distance);
      (exit, distance)
  }

  /** Distances of a finished search are the walk distances. */
  lemma SearchDistances(g: Grid, s: Cell, dist: seq<seq<int>>, parent: seq<seq<Option<Cell>>>)
    requires BfsTree(g, s, dist, parent) && AllSettled(g, dist)
    ensures forall c, m :: InBox(c, Width(g), Height(g)) && IsDistance(g, s, c, m) ==> m == At(dist, c)
  {
    forall c, m | InBox(c, Width(g), Height(g)) && IsDistance(g, s, c, m)
      ensures m == At(dist, c)
    {
      DistanceAt(g, s, dist, parent, c);
      assert Reachable(g, s, c) by {
        var p :| WalkFromTo(g, p, s, c) && |p| == m + 1;
      }
      DistanceUnique(g, s, c, m, At(dist, c));
    }
  }

  lemma BlockExitFacts(g: Grid, s: Cell, dist: seq<seq<int>>, parent: seq<seq<Option<Cell>>>, exit: Cell, d: int)
    requires Roomy(g) && BfsTree(g, s, dist, parent) && AllSettled(g, dist) && At(g, s) == Open
    requires InExitBlock(exit) && At(dist, exit) == d >= 0
    requires forall c :: InExitBlock(c) ==> At(dist, c) <= d
    requires forall c :: InExitBlock(c) && Before(c, exit) ==> At(dist, c) < d
    ensures InBox(exit, Width(g), Height(g)) && At(g, exit) != Wall
    ensures IsDistance(g, s, exit, d)
    ensures ExitPlaced(g, s, exit, d)
  {
    DistanceAt(g, s, dist, parent, exit);
    Division.WalkEndOpen(g, s, exit, d);
    SearchDistances(g, s, dist, parent);
    assert Reachable(g, s, exit);
  }

  /** When the block scan finds nothing, no cell of the exit block is reachable. */
  lemma UnreachedBlock(g: Grid, s: Cell, dist: seq<seq<int>>, parent: seq<seq<Option<Cell>>>)
    requires Roomy(g) && BfsTree(g, s, dist, parent) && AllSettled(g, dist)
    requires forall c :: InExitBlock(c) ==> At(dist, c) <= -1
    ensures forall c :: InExitBlock(c) && InBox(c, Width(g), Height(g)) ==> !Reachable(g, s, c)
  {
    forall c | InExitBlock(c) && InBox(c, Width(g), Height(g))
      ensures !Reachable(g, s, c)
    {
      if At(dist, c) != -1 {
        ReachedNonNegative(g, s, dist, parent, c);
      }
      DistanceAt(g, s, dist, parent, c);
    }
  }

  /** Only the source is at distance 0. */
  lemma OnlySourceAtZero(g: Grid, s: Cell, dist: seq<seq<int>>, parent: seq<seq<Option<Cell>>>, c: Cell)
    requires BfsTree(g, s, dist, parent) && InBox(c, Width(g), Height(g)) && c != s && At(dist, c) != -1
    ensures At(dist, c) >= 1
  {
    assert TreeLink(g, dist, parent, c);
  }

  lemma FallbackFacts(g: Grid, s: Cell, dist: seq<seq<int>>, parent: seq<seq<Option<Cell>>>, exit: Cell, d: int)
    requires Roomy(g) && BfsTree(g, s, dist, parent) && AllSettled(g, dist) && At(g, s) == Open
    requires forall c :: InExitBlock(c) && InBox(c, Width(g), Height(g)) ==> !Reachable(g, s, c)
    requires d >= 0 && forall c :: InBox(c, Width(g), Height(g)) ==> At(dist, c) <= d
    requires d == 0 ==> exit == s
    requires d > 0 ==> InBox(exit, Width(g), Height(g)) && At(dist, exit) == d
    requires d > 0 ==> forall c :: InBox(c, Width(g), Height(g)) && Before(c, exit) ==> At(dist, c) < d
    ensures InBox(exit, Width(g), Height(g)) && At(g, exit) != Wall
    ensures IsDistance(g, s, exit, d)
    ensures ExitPlaced(g, s, exit, d)
  {
    if d == 0 {
      forall c | InBox(c, Width(g), Height(g)) && Before(c, exit)
        ensures At(dist, c) < d
      {
        if At(dist, c) != -1 {
          OnlySourceAtZero(g, s, dist, parent, c);
        }
      }
    }
    Division.ExitIsFarthest(g, s, dist, parent, exit, d);
  }

  // ---------------------------------------------------------------------------
  // The generator
  // ---------------------------------------------------------------------------

  /** `stats` without `openPct`, whose numerator is the maze's open-cell count. */
  datatype HStats = HStats(macroEdges: int, doorsPlaced: nat, microLoops: nat)

  datatype HMaze = HMaze(grid: Grid, start: Cell, exit: Cell, pathLength: nat, stats: HStats,
                         openCells: nat, preset: string, seed: SeedInput)

  /** Every lattice cell of every block is open in g. */
  ghost predicate LatticesOpen(g: Grid)
    requires Roomy(g)
  {
    forall b, l :: 0 <= b < Macro.Total && Micro.Lattice(l) ==>
      Interior(Offset(b, l), Width(g), Height(g)) && At(g, Offset(b, l)) == Open
  }

  /** Everything drawn before the start: the macro tree, then the 45 blocks in
      row order, then the rest (`Assemble`). */
  function Build(w: nat, h: nat, preset: HPreset, rng: Rng): (r: (Grid, HStats, Rng))
    requires w >= MinWidth && h >= MinHeight
    ensures Roomy(r.0) && Width(r.0) == w && Height(r.0) == h
    ensures RingIsWall(r.0) && LatticesOpen(r.0)
    ensures r.1.macroEdges == Macro.Total - 1
    ensures r.1.doorsPlaced == (Macro.Total - 1) * preset.doorsPerEdge
  {
    var (edges, rng1) := Macro.CreateMacroGraph(rng);
    MicroGood(preset.knobs);
    var (blocks, loops, rng2) := MakeBlocks(rng' => Micro.MicroMaze(rng', preset.knobs), Macro.Total, rng1);
    var (g, doors, rng3) := Assemble(w, h, edges, blocks, preset.doorsPerEdge, rng2);
    (g, HStats(Macro.EdgeCount(edges), doors, loops), rng3)
  }

  /** The stitch, the doors and the ring. The ring is wall, every block's lattice
      is still open, and each of the 44 tree edges got its doors. */
  function Assemble(w: nat, h: nat, edges: seq<seq<int>>, blocks: seq<Grid>, perEdge: nat, rng: Rng): (r: (Grid, nat, Rng))
    requires w >= MinWidth && h >= MinHeight && Macro.SpanningTree(edges)
    requires |blocks| == Macro.Total && forall b :: 0 <= b < Macro.Total ==> GoodBlock(blocks[b])
    ensures Roomy(r.0) && Width(r.0) == w && Height(r.0) == h
    ensures RingIsWall(r.0) && LatticesOpen(r.0)
    ensures r.1 == (Macro.Total - 1) * perEdge
  {
    GoodShaped(blocks);
    var g1 := Stitch(w, h, blocks);
    var (g2, doors, rng1) := PlaceDoors(g1, edges, perEdge, rng);
    var g3 := Reborder(g2);
    LatticeKept(w, h, blocks, g2, g3);
    (g3, doors, rng1)
  }

  lemma GoodShaped(blocks: seq<Grid>)
    requires forall b :: 0 <= b < |blocks| ==> GoodBlock(blocks[b])
    ensures forall b :: 0 <= b < |blocks| ==> Shaped(blocks[b], Micro.BlockSize, Micro.BlockSize)
  {
    forall b | 0 <= b < |blocks|
      ensures Shaped(blocks[b], Micro.BlockSize, Micro.BlockSize)
    {
      assert GoodBlock(blocks[b]);
    }
  }

  /** Opening interior cells and re-walling the ring leave every lattice cell of
      the stitched blocks open. */
  lemma LatticeKept(w: nat, h: nat, blocks: seq<Grid>, g2: Grid, g3: Grid)
    requires w >= MinWidth && h >= MinHeight
    requires |blocks| == Macro.Total && forall b :: 0 <= b < Macro.Total ==> GoodBlock(blocks[b])
    requires forall b :: 0 <= b < Macro.Total ==> Shaped(blocks[b], Micro.BlockSize, Micro.BlockSize)
    requires Roomy(g2) && Width(g2) == w && Height(g2) == h && OpensInside(Stitch(w, h, blocks), g2)
    requires Roomy(g3) && Width(g3) == w && Height(g3) == h
    requires forall c :: Interior(c, w, h) ==> At(g3, c) == At(g2, c)
    ensures LatticesOpen(g3)
  {
    forall b, l | 0 <= b < Macro.Total && Micro.Lattice(l)
      ensures Interior(Offset(b, l), w, h) && At(g3, Offset(b, l)) == Open
    {
      LatticeCellKept(w, h, blocks, g2, g3, b, l);
    }
  }

  lemma LatticeCellKept(w: nat, h: nat, blocks: seq<Grid>, g2: Grid, g3: Grid, b: int, l: Cell)
    requires w >= MinWidth && h >= MinHeight
    requires |blocks| == Macro.Total && forall b :: 0 <= b < Macro.Total ==> Shaped(blocks[b], Micro.BlockSize, Micro.BlockSize)
    requires 0 <= b < Macro.Total && Micro.Lattice(l) && GoodBlock(blocks[b])
    requires Roomy(g2) && Width(g2) == w && Height(g2) == h && OpensInside(Stitch(w, h, blocks), g2)
    requires Roomy(g3) && Width(g3) == w && Height(g3) == h
    requires forall c :: Interior(c, w, h) ==> At(g3, c) == At(g2, c)
    ensures Interior(Offset(b, l), w, h) && At(g3, Offset(b, l)) == Open
  {
    var c := Offset(b, l);
    StitchVerbatim(w, h, blocks, b, l);
    assert At(blocks[b], l) == Open;
    assert 2 <= c.x <= MinWidth - 2 && 2 <= c.y <= MinHeight - 2;
  }

  /** What a generated maze guarantees. */
  ghost predicate GoodHMaze(w: int, h: int, m: HMaze) {
    && w >= MinWidth && h >= MinHeight
    && IsGrid(m.grid) && Width(m.grid) == w && Height(m.grid) == h
    && RingIsWall(m.grid) && LatticesOpen(m.grid)
    && InStartBlock(m.start) && At(m.grid, m.start) == Open
    && InBox(m.exit, w, h) && At(m.grid, m.exit) != Wall
    && ValidateMaze(m.grid, Some(m.start), Some(m.exit)) == Valid(m.pathLength)
    && IsDistance(m.grid, m.start, m.exit, m.pathLength)
    && ExitPlaced(m.grid, m.start, m.exit, m.pathLength)
    && m.stats.macroEdges == Macro.Total - 1
    && m.openCells == CountMatrix(m.grid, Open)
  }

  /** The part after the ring: the start, the search, the exit and the result. The
      start block always has an open cell, its lattice cell (1, 1) at (2, 2). */
  function Finish(g: Grid, stats: HStats, rng: Rng, presetName: string, seed: SeedInput): (m: HMaze)
    requires Roomy(g) && RingIsWall(g) && LatticesOpen(g)
    requires stats.macroEdges == Macro.Total - 1
    ensures GoodHMaze(Width(g), Height(g), m)
    ensures m.grid == g && m.stats == stats && m.preset == presetName && m.seed == seed
  {
    assert Offset(0, Cell(1, 1)) == Cell(2, 2) && Micro.Lattice(Cell(1, 1));
    assert InStartBlock(Cell(2, 2)) && At(g, Cell(2, 2)) == Open;
    var (start, _) := PickStart(g, rng);
    var (exit, distance) := PickExit(g, start.value);
    AcceptedWith(g, start.value, exit, distance);
    HMaze(g, start.value, exit, distance, stats, CountMatrix(g, Open), presetName, seed)
  }

  /** `generateHierarchical({ width, height, seed, presetName })`. An unknown preset
      name that is not an inherited object property falls back to A. The source needs the 100 x 56 block area: below that
      it writes past the grid, and the model returns nothing. Every preset places
      one door per edge, so 44 doors in all. */
  function GenerateHierarchical(w: nat, h: nat, seed: SeedInput, presetName: string): (r: Option<HMaze>)
    ensures r.Some? <==> w >= MinWidth && h >= MinHeight
    ensures r.Some? ==> GoodHMaze(w, h, r.value) && r.value.stats.doorsPlaced == Macro.Total - 1
    ensures r.Some? ==> r.value.preset == presetName && r.value.seed == seed
  {
    if w < MinWidth || h < MinHeight then None
    else
      var preset := PresetOf(Doors.PresetByName(presetName));
      var (g, stats, rng) := Build(w, h, preset, CreateRng(seed));
      Some(Finish(g, stats, rng, presetName, seed))
  }
}
