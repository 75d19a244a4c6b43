/** The post-noise part of the cave generator of src/maze/variant3_fbmCaves.js:
    the integer lattice hash behind the noise, the 8-neighbour majority smoothing
    rule, pruning to the largest 4-connected interior component, the random floor
    cell, corridor and branch carving, and the guarded smoothing commit. The
    thresholded noise field itself is a parameter. */
module Caves {
  import opened Grids
  import opened Prng
  import opened Search
  import opened Pathfinding
  import opened Validator
  import opened Components
  import Doors
  import Division

  // ---------------------------------------------------------------------------
  // Presets.

  datatype CavePreset = CavePreset(octaves: nat, lacunarity: real, gain: real, scale: real,
                                   threshold: real, corridorRadius: int, branchCount: nat,
                                   smoothIterations: nat)

  /** `PRESETS`: the three presets differ in the noise and in the branch count;
      all carve corridors of radius 1 and none smooths. */
  function PresetOf(p: Doors.PresetName): (r: CavePreset)
    ensures r.corridorRadius == 1 && r.smoothIterations == 0
  {
    match p
    case A => CavePreset(5, 2.0, 0.5, 0.08, 0.05, 1, 12, 0)
    case B => CavePreset(5, 2.0, 0.5, 0.075, 0.0, 1, 8, 0)
    case C => CavePreset(5, 2.0, 0.5, 0.09, 0.08, 1, 16, 0)
  }

  // ---------------------------------------------------------------------------
  // The lattice hash.

  /** `hash2d(x, y, seed)` on integer arguments. Every intermediate is read as an
      unsigned 32-bit word: `^` and `Math.imul` look only at the low 32 bits of
      their operands, and `>>> k` divides the unsigned reading by 2^k. */
  function Hash2d(x: int, y: int, seed: int): (r: nat)
    ensures r < Modulus
  {
    Pow2Of32();
    var h0 := Xor(Xor(seed % Modulus, (x * 374761393) % Modulus, 32), (y * 668265263) % Modulus, 32);
    var h1 := Imul(Xor(h0, h0 / 0x2000, 32), 1274126177);
    Xor(h1, h1 / 0x1_0000, 32)
  }

  /** The hash sees only the low 32 bits of each argument: shifting any of them by
      a multiple of 2^32 changes nothing. */
  lemma HashReadsWords(x: int, y: int, seed: int, i: int, j: int, k: int)
    ensures Hash2d(x + i * Modulus, y + j * Modulus, seed + k * Modulus) == Hash2d(x, y, seed)
  {
    WordProduct(x, i, 374761393);
    WordProduct(y, j, 668265263);
    ModShift(seed, k);
  }

  lemma WordProduct(x: int, i: int, m: int)
    ensures ((x + i * Modulus) * m) % Modulus == (x * m) % Modulus
  {
    assert (x + i * Modulus) * m == x * m + (i * m) * Modulus;
    ModShift(x * m, i * m);
  }

  // ---------------------------------------------------------------------------
  // The grid the noise leaves.

  /** Wall everywhere, then each interior cell open exactly where the thresholded
      noise says so (`v > threshold ? 0 : 1`). */
  function NoiseGrid(w: nat, h: nat, noiseOpen: (int, int) -> bool): (r: Grid)
    requires w > 0 && h > 0
    ensures IsGrid(r) && Width(r) == w && Height(r) == h
    ensures RingIsWall(r) && Binary(r)
    ensures forall c :: Interior(c, w, h) ==> (At(r, c) == Open <==> noiseOpen(c.x, c.y))
  {
    var r := seq(h, y requires 0 <= y < h =>
      seq(w, x requires 0 <= x < w =>
        if Interior(Cell(x, y), w, h) && noiseOpen(x, y) then Open else Wall));
    assert forall c :: InBox(c, w, h) ==> At(r, c) == if Interior(c, w, h) && noiseOpen(c.x, c.y) then Open else Wall;
    r
  }

  // ---------------------------------------------------------------------------
  // The start cell.

  /** `randomFloorCell(grid, rng)`: an open interior cell drawn with `intBetween`
      from the row-major candidate list. With no candidate the source draws nothing
      and reads `undefined`; here that is no cell. */
  function RandomFloorCell(g: Grid, rng: Rng): (r: (Option<Cell>, Rng))
    requires IsGrid(g)
    ensures r.0.None? <==> forall c :: Interior(c, Width(g), Height(g)) ==> At(g, c) != Open
    ensures r.0.None? ==> r.1 == rng
    ensures r.0.Some? ==> Interior(r.0.value, Width(g), Height(g)) && At(g, r.0.value) == Open
  {
    var candidates := OpenAmong(g, Inner(g));
    var r := Choice(rng, candidates);
    if r.0.None? then
      assert forall c :: Interior(c, Width(g), Height(g)) ==> At(g, c) != Open by {
        forall c | Interior(c, Width(g), Height(g))
          ensures At(g, c) != Open
        {
          assert c in Inner(g);
        }
      }
      r
    else r
  }

  // ---------------------------------------------------------------------------
  // Corridor carving.

  /** Whether a write to c goes ahead: the corridor loop skips cells outside the
      interior (strict), the thick-carve loop only cells outside the grid. */
  predicate Writable(c: Cell, w: int, h: int, strict: bool) {
    if strict then Interior(c, w, h) else InBox(c, w, h)
  }

  /** Writes 0 to each listed cell that the guard lets through, in list order. */
  function OpenEach(g: Grid, cells: seq<Cell>, strict: bool): (r: Grid)
    requires IsGrid(g)
    decreases |cells|
    ensures IsGrid(r) && Width(r) == Width(g) && Height(r) == Height(g)
    ensures forall c :: InBox(c, Width(g), Height(g)) ==>
      At(r, c) == if c in cells && Writable(c, Width(g), Height(g), strict) then Open else At(g, c)
  {
    if |cells| == 0 then g
    else
      var c := cells[0];
      var g1 := if Writable(c, Width(g), Height(g), strict) then Put(g, c, Open) else g;
      assert forall d :: d in cells <==> d == c || d in cells[1..];
      OpenEach(g1, cells[1..], strict)
  }

  /** c lies in the square of side 2 radius + 1 centred on p. */
  predicate Near(p: Cell, c: Cell, radius: int) {
    p.x - radius <= c.x <= p.x + radius && p.y - radius <= c.y <= p.y + radius
  }

  /** The square around p in the order of the `dy`, `dx` loops. */
  function Square(p: Cell, radius: int): (r: seq<Cell>)
    ensures forall c :: c in r <==> Near(p, c, radius)
  {
    Scan(p.x - radius, p.x + radius + 1, p.y - radius, p.y + radius + 1)
  }

  /** c lies within radius of some cell of the path. */
  ghost predicate NearPath(path: seq<Cell>, c: Cell, radius: int) {
    exists i :: 0 <= i < |path| && Near(path[i], c, radius)
  }

  lemma NearPathCons(path: seq<Cell>, c: Cell, radius: int)
    requires |path| > 0
    ensures NearPath(path, c, radius) <==> Near(path[0], c, radius) || NearPath(path[1..], c, radius)
  {
    if NearPath(path[1..], c, radius) {
      var i :| 0 <= i < |path[1..]| && Near(path[1..][i], c, radius);
      assert Near(path[i + 1], c, radius);
    }
    if NearPath(path, c, radius) && !Near(path[0], c, radius) {
      var i :| 0 <= i < |path| && Near(path[i], c, radius);
      assert Near(path[1..][i - 1], c, radius);
    }
    if Near(path[0], c, radius) {
      assert Near(path[0], c, radius);
    }
  }

  /** `carveCorridor(grid, path, radius)`: exactly the interior cells within
      radius of a path cell become open; every other cell keeps its value. */
  function CarveCorridor(g: Grid, path: seq<Cell>, radius: int): (r: Grid)
    requires IsGrid(g)
    decreases |path|
    ensures IsGrid(r) && Width(r) == Width(g) && Height(r) == Height(g)
    ensures forall c :: InBox(c, Width(g), Height(g)) ==>
      At(r, c) == if Interior(c, Width(g), Height(g)) && NearPath(path, c, radius) then Open else At(g, c)
    ensures OpensInside(g, r)
  {
    if |path| == 0 then g
    else
      var g1 := OpenEach(g, Square(path[0], radius), true);
      var r := CarveCorridor(g1, path[1..], radius);
      forall c | InBox(c, Width(g), Height(g))
        ensures At(r, c) == if Interior(c, Width(g), Height(g)) && NearPath(path, c, radius) then Open else At(g, c)
      {
        NearPathCons(path, c, radius);
      }
      r
  }

  // ---------------------------------------------------------------------------
  // Branch carving.

  /** `dirs`: the four unit steps +x, -x, +y, -y. */
  const Dirs: seq<Cell> := [Cell(1, 0), Cell(-1, 0), Cell(0, 1), Cell(0, -1)]

  /** `dirs[rng.intBetween(0, dirs.length - 1)]`. */
  function DrawDir(rng: Rng): (r: (Cell, Rng))
    ensures r.0 in Dirs && r.1 == NextUint32(rng).1
  {
    var (i, rng') := IntBetween(rng, 0, |Dirs| - 1);
    (Dirs[i], rng')
  }

  /** The four cells one step of `dirs` away from p, in that order. */
  function Around(p: Cell): (r: seq<Cell>)
    ensures forall c :: c in r <==> Adjacent(p, c)
  {
    AroundAdjacent(p);
    [Neighbour(p, 0), Neighbour(p, 1), Neighbour(p, 2), Neighbour(p, 3)]
  }

  lemma AroundAdjacent(p: Cell)
    ensures forall c :: Adjacent(p, c) ==> c in [Neighbour(p, 0), Neighbour(p, 1), Neighbour(p, 2), Neighbour(p, 3)]
  {
    forall c | Adjacent(p, c)
      ensures c in [Neighbour(p, 0), Neighbour(p, 1), Neighbour(p, 2), Neighbour(p, 3)]
    {
      AdjacentIsNeighbour(p, c);
    }
  }

  /** `Math.floor(10 + 60 * v^2)` for a draw v in [0, 1), in exact arithmetic. */
  function BranchLength(v: real): (n: nat)
    requires 0.0 <= v < 1.0
    ensures 10 <= n <= 69
  {
    SquareBelowOne(v);
    (10.0 + 60.0 * (v * v)).Floor
  }

  lemma SquareBelowOne(v: real)
    requires 0.0 <= v < 1.0
    ensures 0.0 <= v * v < 1.0
  {
    assert v * v <= v * 1.0;
  }

  /** A step cell of a branch: two cells clear of the ring, as the `break` test
      demands. */
  predicate StepCell(c: Cell, w: int, h: int) {
    1 < c.x < w - 2 && 1 < c.y < h - 2
  }

  /** The inner loop of `carveBranches` for the remaining steps: on each step a
      draw above 0.6 turns the branch, then it moves; leaving the step area ends
      the branch, otherwise the new cell opens and a draw below 0.3 also opens its
      four neighbours. Only interior cells change, and only to open. */
  function BranchWalk(g: Grid, rng: Rng, pos: Cell, dir: Cell, steps: nat): (r: (Grid, Rng))
    requires IsGrid(g)
    decreases steps
    ensures IsGrid(r.0) && Width(r.0) == Width(g) && Height(r.0) == Height(g)
    ensures OpensInside(g, r.0)
  {
    if steps == 0 then (g, rng)
    else
      var (v, rng1) := Next(rng);
      var (dir', rng2) := if v > 0.6 then DrawDir(rng1) else (dir, rng1);
      var p := Cell(pos.x + dir'.x, pos.y + dir'.y);
      if !StepCell(p, Width(g), Height(g)) then (g, rng2)
      else
        var (g2, rng3) := Widen(g, rng2, p);
        var r := BranchWalk(g2, rng3, p, dir', steps - 1);
        OpensInsideTrans(g, g2, r.0);
        r
  }

  /** One step's writes: the step cell, then with a draw below 0.3 its four
      neighbours. */
  function Widen(g: Grid, rng: Rng, p: Cell): (r: (Grid, Rng))
    requires IsGrid(g) && StepCell(p, Width(g), Height(g))
    ensures IsGrid(r.0) && Width(r.0) == Width(g) && Height(r.0) == Height(g)
    ensures OpensInside(g, r.0)
  {
    var (u, rng') := Next(rng);
    (OpenStep(g, p, u < 0.3), rng')
  }

  /** The step cell opens, and with thick so do its four neighbours; all of them
      are interior cells, since the step cell keeps two cells off the ring. */
  function OpenStep(g: Grid, p: Cell, thick: bool): (r: Grid)
    requires IsGrid(g) && StepCell(p, Width(g), Height(g))
    ensures IsGrid(r) && Width(r) == Width(g) && Height(r) == Height(g)
    ensures OpensInside(g, r)
    ensures forall c :: InBox(c, Width(g), Height(g)) ==>
      (At(r, c) != At(g, c) ==> c == p || (thick && Adjacent(p, c)))
  {
    var g1 := Put(g, p, Open);
    assert IsGrid(g1) && Width(g1) == Width(g) && Height(g1) == Height(g);
    if thick then
      var r := OpenAround(g1, p);
      OpensInsideTrans(g, g1, r);
      r
    else g1
  }

  /** The thick carve: the four neighbours of a step cell open. */
  function OpenAround(g: Grid, p: Cell): (r: Grid)
    requires IsGrid(g) && StepCell(p, Width(g), Height(g))
    ensures IsGrid(r) && Width(r) == Width(g) && Height(r) == Height(g)
    ensures OpensInside(g, r)
    ensures forall c :: InBox(c, Width(g), Height(g)) && At(r, c) != At(g, c) ==> Adjacent(p, c)
  {
    AroundInside(p, Width(g), Height(g));
    OpenEach(g, Around(p), false)
  }

  lemma AroundInside(p: Cell, w: int, h: int)
    requires StepCell(p, w, h)
    ensures forall c :: Adjacent(p, c) ==> Interior(c, w, h)
  {
  }

  /** `carveBranches(grid, rng, path, count)` with the summed branch length in
      place of the average: each branch starts from a path cell drawn with
      `intBetween`, draws its length in [10, 69] and its first direction, then
      walks. Only interior cells change, and only to open. */
  function Branches(g: Grid, rng: Rng, path: seq<Cell>, count: nat): (r: (Grid, nat, Rng))
    requires IsGrid(g) && |path| > 0
    decreases count
    ensures IsGrid(r.0) && Width(r.0) == Width(g) && Height(r.0) == Height(g)
    ensures OpensInside(g, r.0)
    ensures 10 * count <= r.1 <= 69 * count
  {
    if count == 0 then (g, 0, rng)
    else
      var (i, rng1) := IntBetween(rng, 0, |path| - 1);
      var (v, rng2) := Next(rng1);
      var length := BranchLength(v);
      var (dir, rng3) := DrawDir(rng2);
      var (g1, rng4) := BranchWalk(g, rng3, path[i], dir, length);
      var (g2, total, rng5) := Branches(g1, rng4, path, count - 1);
      OpensInsideTrans(g, g1, g2);
      (g2, length + total, rng5)
  }
  // ---------------------------------------------------------------------------
  // Smoothing.

  /** The wall count of `smoothGrid` over the listed cells: those other than c
      holding 1. */
  function WallTally(g: Grid, c: Cell, cells: seq<Cell>): (n: nat)
    requires forall d :: d in cells ==> InMatrix(g, d)
    decreases |cells|
  {
    if |cells| == 0 then 0
    else (if cells[0] != c && At(g, cells[0]) == Wall then 1 else 0) + WallTally(g, c, cells[1..])
  }

  /** The walls among the eight cells around c. */
  ghost function NeighbourWalls(g: Grid, c: Cell): set<Cell>
    requires IsGrid(g) && Interior(c, Width(g), Height(g))
  {
    set d | d in Square(c, 1) && d != c && At(g, d) == Wall
  }

  /** Over a list without repeats the tally is the number of distinct walls. */
  lemma {:induction false} TallyCounts(g: Grid, c: Cell, cells: seq<Cell>)
    requires forall d :: d in cells ==> InMatrix(g, d)
    requires RowMajorSorted(cells)
    decreases |cells|
    ensures WallTally(g, c, cells) == |set d | d in cells && d != c && At(g, d) == Wall|
  {
    if |cells| > 0 {
      var rest := cells[1..];
      assert RowMajorSorted(rest);
      TallyCounts(g, c, rest);
      assert cells[0] !in rest by {
        forall j | 0 <= j < |rest|
          ensures rest[j] != cells[0]
        {
          assert Before(cells[0], cells[j + 1]);
        }
      }
      var before := set d | d in rest && d != c && At(g, d) == Wall;
      var after := set d | d in cells && d != c && At(g, d) == Wall;
      assert forall d :: d in cells <==> d == cells[0] || d in rest;
      if cells[0] != c && At(g, cells[0]) == Wall {
        assert after == before + {cells[0]};
      } else {
        assert after == before;
      }
    }
  }

  /** The number of walls among the eight cells around an interior cell, counted
      the way the `dy`, `dx` loops do. */
  function WallCount(g: Grid, c: Cell): (n: nat)
    requires IsGrid(g) && Interior(c, Width(g), Height(g))
    ensures n == |NeighbourWalls(g, c)|
  {
    var block := Square(c, 1);
    assert forall d :: d in block ==> InMatrix(g, d);
    TallyCounts(g, c, block);
    WallTally(g, c, block)
  }

  /** `smoothGrid(grid)`: each interior cell becomes a wall when at least five of
      its eight neighbours are walls and open otherwise, all read from the input;
      the ring keeps its values. */
  function SmoothGrid(g: Grid): (r: Grid)
    requires IsGrid(g)
    ensures IsGrid(r) && Width(r) == Width(g) && Height(r) == Height(g)
    ensures forall c :: InBox(c, Width(g), Height(g)) && !Interior(c, Width(g), Height(g)) ==> At(r, c) == At(g, c)
    ensures forall c :: Interior(c, Width(g), Height(g)) ==>
      (At(r, c) == Wall <==> |NeighbourWalls(g, c)| >= 5) && (At(r, c) == Open || At(r, c) == Wall)
  {
    var w := Width(g);
    var h := Height(g);
    seq(h, y requires 0 <= y < h =>
      seq(w, x requires 0 <= x < w =>
        if Interior(Cell(x, y), w, h) then (if WallCount(g, Cell(x, y)) >= 5 then Wall else Open)
        else g[y][x]))
  }

  /** `iterations` rounds of smoothing, each reading the previous round's grid. */
  function SmoothRounds(g: Grid, iterations: nat): (r: Grid)
    requires IsGrid(g)
    decreases iterations
    ensures IsGrid(r) && Width(r) == Width(g) && Height(r) == Height(g)
    ensures forall c :: InBox(c, Width(g), Height(g)) && !Interior(c, Width(g), Height(g)) ==> At(r, c) == At(g, c)
  {
    if iterations == 0 then g else SmoothRounds(SmoothGrid(g), iterations - 1)
  }

  /** The guarded smoothing of `generateFbmCaves`: with a positive round count the
      smoothed grid replaces the grid exactly when the exit is still reachable
      from the start on it; the flag says whether it did. */
  function Smoothing(g: Grid, start: Cell, exit: Cell, iterations: nat): (r: (Grid, bool))
    requires IsGrid(g) && InBox(start, Width(g), Height(g)) && InBox(exit, Width(g), Height(g))
    ensures r.1 <==> iterations > 0 && Reachable(SmoothRounds(g, iterations), start, exit)
    ensures r.0 == if r.1 then SmoothRounds(g, iterations) else g
  {
    if iterations == 0 then (g, false)
    else
      var smoothed := SmoothRounds(g, iterations);
      if BfsPathLength(smoothed, start, exit) != -1 then (smoothed, true) else (g, false)
  }

  // ---------------------------------------------------------------------------
  // The generator.

  /** The statistics of a cave, with open-cell counts in place of the open
      fractions and the summed branch length in place of the average. */
  datatype CaveStats = CaveStats(openBefore: nat, openAfter: nat, largestComponentSize: nat,
                                 branchCount: nat, totalBranchLength: nat, smoothingApplied: bool,
                                 scale: real, threshold: real, octaves: nat)

  /** The result of `generateFbmCaves`. */
  datatype CaveMaze = CaveMaze(grid: Grid, start: Cell, exit: Cell, pathLength: int,
                               stats: CaveStats, preset: string, seed: SeedInput)

  /** What carving leaves: the grid, the exit the search picked with its distance
      before carving, the summed branch length and the generator. */
  datatype Carved = Carved(grid: Grid, exit: Cell, distance: int, totalLength: nat, rng: Rng)

  ghost predicate CarvedFrom(g: Grid, s: Cell, count: nat, c: Carved)
    requires IsGrid(g)
  {
    && IsGrid(c.grid) && Width(c.grid) == Width(g) && Height(c.grid) == Height(g)
    && OpensInside(g, c.grid)
    && Farthest(g, s, c.exit, c.distance) && At(g, c.exit) != Wall
    && 10 * count <= c.totalLength <= 69 * count
  }

  /** The search from the start, the farthest cell as exit, the corridor along
      the path back to the start, and the branches off that path. */
  function Carve(g: Grid, s: Cell, radius: int, count: nat, rng: Rng): (r: Carved)
    requires IsGrid(g) && InBox(s, Width(g), Height(g)) && At(g, s) == Open
    ensures CarvedFrom(g, s, count, r)
  {
    CarveAlong(g, s, radius, count, rng, Bfs(g, s))
  }

  function CarveAlong(g: Grid, s: Cell, radius: int, count: nat, rng: Rng, res: BfsResult): (r: Carved)
    requires IsGrid(g) && InBox(s, Width(g), Height(g)) && At(g, s) == Open
    requires Shaped(res.dist, Width(g), Height(g)) && Shaped(res.parent, Width(g), Height(g))
    requires BfsTree(g, s, res.dist, res.parent) && AllSettled(g, res.dist)
    ensures CarvedFrom(g, s, count, r)
  {
    var (exit, distance) := FarthestCell(res.dist);
    Division.ExitIsFarthest(g, s, res.dist, res.parent, exit, distance);
    var path := ReconstructPath(res.parent, s, exit, g, res.dist);
    var g1 := CarveCorridor(g, path, radius);
    var (g2, total, rng') := Branches(g1, rng, path, count);
    OpensInsideTrans(g, g1, g2);
    Carved(g2, exit, distance, total, rng')
  }

  /** A shortest walk survives a change that only opens cells: the end stays
      reachable, no further away than before. */
  lemma WalkSurvives(g: Grid, g2: Grid, s: Cell, t: Cell, n: int)
    requires IsGrid(g) && IsGrid(g2) && Width(g2) == Width(g) && Height(g2) == Height(g)
    requires OpensInside(g, g2) && IsDistance(g, s, t, n)
    ensures Reachable(g2, s, t)
    ensures forall m :: IsDistance(g2, s, t, m) ==> m <= n
  {
    var p :| WalkFromTo(g, p, s, t) && |p| == n + 1;
    forall i | 1 <= i < |p|
      ensures At(g2, p[i]) != Wall
    {
      assert At(g, p[i]) != Wall;
    }
    assert WalkFromTo(g2, p, s, t);
  }

  /** Opening interior cells keeps a walled ring and every open or non-wall cell. */
  lemma OpeningKeeps(g: Grid, g2: Grid)
    requires IsGrid(g) && IsGrid(g2) && Width(g2) == Width(g) && Height(g2) == Height(g)
    requires OpensInside(g, g2)
    ensures RingIsWall(g) ==> RingIsWall(g2)
    ensures forall c :: InBox(c, Width(g), Height(g)) && At(g, c) != Wall ==> At(g2, c) != Wall
    ensures forall c :: InBox(c, Width(g), Height(g)) && At(g, c) == Open ==> At(g2, c) == Open
  {
  }

  /** What every cave satisfies: the requested size, a solid ring, the start
      inside, the path length the BFS distance of the exit on the final grid, the
      branch lengths in range, and, when no smoothing ran, an open start and
      acceptance by `validateMaze` with that path length. */
  ghost predicate GoodCave(w: nat, h: nat, m: CaveMaze) {
    && IsGrid(m.grid) && Width(m.grid) == w && Height(m.grid) == h
    && RingIsWall(m.grid)
    && Interior(m.start, w, h) && InBox(m.exit, w, h)
    && m.pathLength >= 0 && IsDistance(m.grid, m.start, m.exit, m.pathLength)
    && (!m.stats.smoothingApplied ==>
         && At(m.grid, m.start) == Open
         && ValidateMaze(m.grid, Some(m.start), Some(m.exit)) == Valid(m.pathLength))
    && 10 * m.stats.branchCount <= m.stats.totalBranchLength <= 69 * m.stats.branchCount
  }

  /** How m follows from the kept grid g1: the start is open on it, the exit is
      the farthest cell from the start on it, and without smoothing the final grid
      only opens interior cells of g1 and the path is no longer than that
      distance. */
  ghost predicate CarvedCave(g1: Grid, d: int, m: CaveMaze)
    requires IsGrid(g1)
  {
    && InBox(m.start, Width(g1), Height(g1)) && At(g1, m.start) == Open
    && Farthest(g1, m.start, m.exit, d)
    && (!m.stats.smoothingApplied ==>
         && IsGrid(m.grid) && Width(m.grid) == Width(g1) && Height(m.grid) == Height(g1)
         && OpensInside(g1, m.grid) && m.pathLength <= d)
  }

  /** Everything after the start is drawn: carving, the guarded smoothing and the
      final search. */
  function Complete(g1: Grid, start: Cell, rng: Rng, preset: CavePreset, stats: CaveStats,
                    presetName: string, seed: SeedInput): (m: CaveMaze)
    requires IsGrid(g1) && RingIsWall(g1)
    requires Interior(start, Width(g1), Height(g1)) && At(g1, start) == Open
    requires stats.branchCount == preset.branchCount
    ensures GoodCave(Width(g1), Height(g1), m)
    ensures exists d :: CarvedCave(g1, d, m)
    ensures m.stats == stats.(totalBranchLength := m.stats.totalBranchLength, smoothingApplied := m.stats.smoothingApplied)
    ensures m.preset == presetName && m.seed == seed && m.start == start
    ensures m.stats.smoothingApplied ==> preset.smoothIterations > 0
  {
    var carved := Carve(g1, start, preset.corridorRadius, preset.branchCount, rng);
    var (g, applied) := Smoothing(carved.grid, start, carved.exit, preset.smoothIterations);
    var pathLength := BfsPathLength(g, start, carved.exit);
    var m := CaveMaze(g, start, carved.exit, pathLength,
                      stats.(totalBranchLength := carved.totalLength, smoothingApplied := applied),
                      presetName, seed);
    Completed(g1, carved, m);
    m
  }

  lemma Completed(g1: Grid, carved: Carved, m: CaveMaze)
    requires IsGrid(g1) && RingIsWall(g1)
    requires Interior(m.start, Width(g1), Height(g1)) && At(g1, m.start) == Open
    requires CarvedFrom(g1, m.start, m.stats.branchCount, carved) && m.exit == carved.exit
    requires m.stats.totalBranchLength == carved.totalLength
    requires m.stats.smoothingApplied ==>
      && IsGrid(m.grid) && Width(m.grid) == Width(g1) && Height(m.grid) == Height(g1)
      && (forall c :: InBox(c, Width(g1), Height(g1)) && !Interior(c, Width(g1), Height(g1)) ==> At(m.grid, c) == At(carved.grid, c))
      && Reachable(m.grid, m.start, m.exit)
    requires !m.stats.smoothingApplied ==> m.grid == carved.grid
    requires IsGrid(m.grid)
    requires InBox(m.exit, Width(m.grid), Height(m.grid))
    requires m.pathLength == -1 <==> !Reachable(m.grid, m.start, m.exit)
    requires m.pathLength != -1 ==> IsDistance(m.grid, m.start, m.exit, m.pathLength)
    ensures GoodCave(Width(g1), Height(g1), m)
    ensures CarvedCave(g1, carved.distance, m)
  {
    var w := Width(g1);
    var h := Height(g1);
    OpeningKeeps(g1, carved.grid);
    WalkSurvives(g1, carved.grid, m.start, m.exit, carved.distance);
    if m.stats.smoothingApplied {
      assert RingIsWall(m.grid) by {
        forall c | InBox(c, w, h) && OnRing(c, w, h)
          ensures At(m.grid, c) == Wall
        {
          assert At(carved.grid, c) == Wall;
        }
      }
    } else {
      AcceptedWith(m.grid, m.start, m.exit, m.pathLength);
    }
  }

  /** m comes from the noise grid g0: the open count before pruning is g0's, and
      g1, g0 pruned to its first largest component L, holds the start, gives the
      open count after pruning, and is the grid the exit was picked on. */
  ghost predicate FromNoise(g0: Grid, m: CaveMaze)
    requires IsGrid(g0)
  {
    && m.stats.openBefore == CountMatrix(g0, Open)
    && exists g1, L, d :: KeptCave(g0, g1, L, d, m)
  }

  ghost predicate KeptCave(g0: Grid, g1: Grid, L: set<Cell>, d: int, m: CaveMaze)
    requires IsGrid(g0)
  {
    && IsGrid(g1) && Width(g1) == Width(g0) && Height(g1) == Height(g0)
    && Kept(g0, g1, m.stats.largestComponentSize, L)
    && m.stats.openAfter == CountMatrix(g1, Open)
    && m.start in L && CarvedCave(g1, d, m)
  }

  /** Pruning a noise grid keeps its walled ring, and leaves an open interior cell
      exactly when the noise opened one. */
  lemma PrunedNoise(w: nat, h: nat, noiseOpen: (int, int) -> bool, g0: Grid, g1: Grid, size: nat)
    requires IsGrid(g0) && Width(g0) == w && Height(g0) == h && RingIsWall(g0) && Binary(g0)
    requires forall c :: Interior(c, w, h) ==> (At(g0, c) == Open <==> noiseOpen(c.x, c.y))
    requires IsGrid(g1) && Width(g1) == w && Height(g1) == h
    requires forall c :: InBox(c, w, h) && At(g1, c) != At(g0, c) ==>
      Interior(c, w, h) && At(g0, c) == Open && At(g1, c) == Wall
    requires exists L :: Kept(g0, g1, size, L)
    ensures RingIsWall(g1)
    ensures (exists c :: Interior(c, w, h) && noiseOpen(c.x, c.y)) <==>
      !forall c :: Interior(c, w, h) ==> At(g1, c) != Open
  {
    assert RingIsWall(g1) by {
      forall c | InBox(c, w, h) && OnRing(c, w, h)
        ensures At(g1, c) == Wall
      {
        assert At(g0, c) == Wall;
      }
    }
    if c :| Interior(c, w, h) && noiseOpen(c.x, c.y) {
      assert Floor(g0, c);
      var L :| Kept(g0, g1, size, L);
      var s :| LargestSeed(g0, s) && L == ComponentOf(g0, s);
      OwnComponent(g0, s);
      assert At(g0, s) == Open;
      assert At(g1, s) == Open;
    }
    if c :| Interior(c, w, h) && At(g1, c) == Open {
      assert noiseOpen(c.x, c.y);
    }
  }

  /** `generateFbmCaves({ width, height, seed, presetName })` from the noise on:
      noiseOpen(x, y) says whether the preset's thresholded fBm noise for this seed
      opens the interior cell (x, y). An unknown preset name that is not an
      inherited object property falls back to A. The source fails when no interior
      cell is open, since the start cell is then `undefined`; there is no cave then. Otherwise the cave is good, none of the
      presets smooths, and it follows from the noise grid through pruning. */
  function GenerateFbmCaves(w: nat, h: nat, seed: SeedInput, presetName: string,
                            noiseOpen: (int, int) -> bool): (r: Option<CaveMaze>)
    ensures r.Some? <==> exists c :: Interior(c, w, h) && noiseOpen(c.x, c.y)
    ensures r.Some? ==> GoodCave(w, h, r.value) && !r.value.stats.smoothingApplied
    ensures r.Some? ==> r.value.preset == presetName && r.value.seed == seed
    ensures r.Some? ==> r.value.stats.branchCount == PresetOf(Doors.PresetByName(presetName)).branchCount
    ensures r.Some? ==> w > 0 && h > 0 && FromNoise(NoiseGrid(w, h, noiseOpen), r.value)
  {
    if w == 0 || h == 0 then None
    else
      var g0 := NoiseGrid(w, h, noiseOpen);
      FromPruned(w, h, seed, presetName, noiseOpen, g0, KeepLargestComponent(g0))
  }

  /** The noise grid g0 pruned to `kept`: draw the start on the pruned grid. */
  function FromPruned(w: nat, h: nat, seed: SeedInput, presetName: string, noiseOpen: (int, int) -> bool,
                 g0: Grid, kept: (Grid, nat)): (r: Option<CaveMaze>)
    requires IsGrid(g0) && Width(g0) == w && Height(g0) == h && RingIsWall(g0) && Binary(g0)
    requires forall c :: Interior(c, w, h) ==> (At(g0, c) == Open <==> noiseOpen(c.x, c.y))
    requires IsGrid(kept.0) && Width(kept.0) == w && Height(kept.0) == h
    requires forall c :: InBox(c, w, h) && At(kept.0, c) != At(g0, c) ==>
      Interior(c, w, h) && At(g0, c) == Open && At(kept.0, c) == Wall
    requires exists L :: Kept(g0, kept.0, kept.1, L)
    ensures r.Some? <==> exists c :: Interior(c, w, h) && noiseOpen(c.x, c.y)
    ensures r.Some? ==> GoodCave(w, h, r.value) && !r.value.stats.smoothingApplied
    ensures r.Some? ==> r.value.preset == presetName && r.value.seed == seed
    ensures r.Some? ==> r.value.stats.branchCount == PresetOf(Doors.PresetByName(presetName)).branchCount
    ensures r.Some? ==> FromNoise(g0, r.value)
  {
    var (g1, size) := kept;
    PrunedNoise(w, h, noiseOpen, g0, g1, size);
    var (start, rng) := RandomFloorCell(g1, CreateRng(seed));
    FromStart(seed, presetName, g0, kept, start, rng)
  }

  /** The drawn start, if any, and everything after it. */
  function FromStart(seed: SeedInput, presetName: string, g0: Grid, kept: (Grid, nat),
                 start: Option<Cell>, rng: Rng): (r: Option<CaveMaze>)
    requires IsGrid(g0) && IsGrid(kept.0) && Width(kept.0) == Width(g0) && Height(kept.0) == Height(g0)
    requires RingIsWall(kept.0) && exists L :: Kept(g0, kept.0, kept.1, L)
    requires start.Some? ==> Interior(start.value, Width(g0), Height(g0)) && At(kept.0, start.value) == Open
    ensures r.Some? <==> start.Some?
    ensures r.Some? ==> GoodCave(Width(g0), Height(g0), r.value) && !r.value.stats.smoothingApplied
    ensures r.Some? ==> r.value.preset == presetName && r.value.seed == seed
    ensures r.Some? ==> r.value.stats.branchCount == PresetOf(Doors.PresetByName(presetName)).branchCount
    ensures r.Some? ==> FromNoise(g0, r.value)
  {
    if start.None? then None
    else
      var (g1, size) := kept;
      var preset := PresetOf(Doors.PresetByName(presetName));
      var stats := CaveStats(CountMatrix(g0, Open), CountMatrix(g1, Open), size, preset.branchCount,
                             0, false, preset.scale, preset.threshold, preset.octaves);
      var m := Complete(g1, start.value, rng, preset, stats, presetName, seed);
      StartKept(g0, g1, m);
      Some(m)
  }

  /** The start, open on the pruned grid, lies in the kept component. */
  lemma StartKept(g0: Grid, g1: Grid, m: CaveMaze)
    requires IsGrid(g0) && IsGrid(g1) && Width(g1) == Width(g0) && Height(g1) == Height(g0)
    requires exists L :: Kept(g0, g1, m.stats.largestComponentSize, L)
    requires exists d :: CarvedCave(g1, d, m)
    requires Interior(m.start, Width(g0), Height(g0))
    requires m.stats.openAfter == CountMatrix(g1, Open)
    ensures exists L, d :: KeptCave(g0, g1, L, d, m)
  {
    var L :| Kept(g0, g1, m.stats.largestComponentSize, L);
    var d :| CarvedCave(g1, d, m);
    assert m.start in L;
    assert KeptCave(g0, g1, L, d, m);
  }
}
