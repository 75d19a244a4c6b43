/** The recursive-division generator of src/maze/variant1_recursiveDivision.js:
    `divide` splits a rectangle by a wall on an even line with doors at odd
    positions, `buildGrid` and `pickStart` set up and finish one maze, and
    `generateRecursiveDivision` retries up to six times on sub-seeds drawn from the
    base generator. */
module Division {
  import opened Grids
  import opened Prng
  import opened Search
  import opened Pathfinding
  import opened Validator
  import opened Doors
  import opened Walls

  /** The `stats` object that `divide` updates. */
  datatype Stats = Stats(maxDepth: nat, wallsPlaced: nat, doorCountTotal: nat)

  function Max(a: nat, b: nat): nat {
    if a < b then b else a
  }

  /** The orientation draw: a wide rectangle is cut vertically with probability 0.65,
      a tall one horizontally with probability 0.65, a square one either way with
      probability 0.5. One value is drawn in every case. */
  function ChooseOrientation(rng: Rng, width: int, height: int): (r: (Orientation, Rng))
    ensures r.1 == NextUint32(rng).1
    ensures width > height ==> (r.0 == Vertical <==> Next(rng).0 < 0.65)
    ensures height > width ==> (r.0 == Horizontal <==> Next(rng).0 < 0.65)
    ensures width == height ==> (r.0 == Vertical <==> Next(rng).0 < 0.5)
  {
    var (u, rng') := Next(rng);
    if width > height then (if u < 0.65 then Vertical else Horizontal, rng')
    else if height > width then (if u < 0.65 then Horizontal else Vertical, rng')
    else (if u < 0.5 then Vertical else Horizontal, rng')
  }

  /** The positions lo..hi that pass the source's `% 2 === 1` test, in increasing
      order: the odd positive ones. */
  function OddPositions(lo: int, hi: int): (r: seq<int>)
    decreases hi - lo
    ensures forall p :: p in r <==> lo <= p <= hi && p > 0 && Odd(p)
    ensures forall i, j :: 0 <= i < j < |r| ==> r[i] < r[j]
  {
    if lo > hi then []
    else
      var rest := OddPositions(lo + 1, hi);
      assert forall j :: 0 <= j < |rest| ==> rest[j] in rest;
      (if JsRem2(lo) == 1 then [lo] else []) + rest
  }

  /** Some odd positive position lies in lo..hi when the range holds two values. */
  lemma OddPositionExists(lo: int, hi: int)
    requires 0 <= lo && lo + 1 <= hi
    ensures |OddPositions(lo, hi)| > 0
  {
    if Odd(lo) && lo > 0 {
      assert lo in OddPositions(lo, hi);
    } else {
      assert lo + 1 in OddPositions(lo, hi);
    }
  }

  /** The outcome of one level of `divide` past the size check: either the even pick
      found no line (`wallX === null`), or the grid with the new wall and its doors. */
  datatype Cut = NoCut(rng: Rng) | Cut(grid: Grid, rng: Rng, line: Line, placed: nat, doors: nat)

  /** The orientation draw and the even pick: `wallX` (or `wallY`) strictly inside
      the rectangle, or no line when the even pick finds nothing. */
  function PickLine(rect: Rect, rng: Rng): (r: (Option<Line>, Rng))
    ensures r.0.None? ==> r.1 == NextUint32(rng).1
    ensures r.0.Some? ==>
      var l := r.0.value; l == WallLine(rect, l.o, l.at) && Inside(rect, l) && Even(l.at)
  {
    var width := rect.x2 - rect.x1 + 1;
    var height := rect.y2 - rect.y1 + 1;
    var (o, rng1) := ChooseOrientation(rng, width, height);
    var (at, rng2) := if o == Vertical then RandomEvenBetween(rng1, rect.x1 + 1, rect.x2 - 1)
                      else RandomEvenBetween(rng1, rect.y1 + 1, rect.y2 - 1);
    if at.None? then (None, rng2)
    else (Some(WallLine(rect, o, at.value)), rng2)
  }

  /** The door draws of one level: the extra door count, then `doorCount(depth) +
      extra` spaced odd positions of the line. Raising the wall draws nothing, so
      the source's order (raise, then draw) yields the same stream. */
  function DrawDoors(l: Line, depth: nat, p: PresetName, rng: Rng): (r: (seq<int>, Rng))
    requires 0 <= l.lo < l.hi
    ensures 1 <= |r.0| <= 3
    ensures forall k :: 0 <= k < |r.0| ==> l.lo <= r.0[k] <= l.hi && Odd(r.0[k])
  {
    var (extra, rng1) := ExtraDoors(p, depth, rng);
    var positions := OddPositions(l.lo, l.hi);
    OddPositionExists(l.lo, l.hi);
    var (doors, rng2) := ChooseDoors(rng1, positions, DoorCount(p, depth) + extra, DoorMinSpacing(p));
    assert forall k :: 0 <= k < |doors| ==> doors[k] in positions;
    (doors, rng2)
  }

  /** The grid part of one level: raise the wall along the line, then open the
      doors. The result holds the new grid and the flips. */
  function BuildLine(g: Grid, l: Line, doors: seq<int>): (r: (Grid, nat))
    requires IsGrid(g) && LineFits(l, Width(g), Height(g))
    requires forall k :: 0 <= k < |doors| ==> l.lo <= doors[k] <= l.hi && Odd(doors[k])
    ensures IsGrid(r.0) && Width(r.0) == Width(g) && Height(r.0) == Height(g)
    ensures forall c :: InBox(c, Width(g), Height(g)) && At(r.0, c) != At(g, c) ==> OnLine(c, l)
    ensures forall c :: InBox(c, Width(g), Height(g)) && OnLine(c, l) && At(r.0, c) == Open ==> Odd(Along(c, l.o))
  {
    var (g1, placed) := RaiseWall(g, l);
    var g2 := OpenDoors(g1, l, doors);
    DoorsOdd(g, g1, g2, l, doors);
    (g2, placed)
  }

  /** After the wall is raised, an open cell of the line is one of the doors, and
      every door position is odd. */
  lemma DoorsOdd(g: Grid, g1: Grid, g2: Grid, l: Line, doors: seq<int>)
    requires IsGrid(g) && Shaped(g1, Width(g), Height(g)) && Shaped(g2, Width(g), Height(g))
    requires forall c :: InBox(c, Width(g), Height(g)) ==>
      At(g1, c) == if OnLine(c, l) && At(g, c) == Open then Wall else At(g, c)
    requires forall c :: InBox(c, Width(g), Height(g)) ==>
      At(g2, c) == if OnLine(c, l) && Along(c, l.o) in doors then Open else At(g1, c)
    requires forall k :: 0 <= k < |doors| ==> Odd(doors[k])
    ensures forall c :: InBox(c, Width(g), Height(g)) && At(g2, c) != At(g, c) ==> OnLine(c, l)
    ensures forall c :: InBox(c, Width(g), Height(g)) && OnLine(c, l) && At(g2, c) == Open ==> Odd(Along(c, l.o))
  {
    forall c | InBox(c, Width(g), Height(g)) && OnLine(c, l) && At(g2, c) == Open
      ensures Odd(Along(c, l.o))
    {
      var k :| 0 <= k < |doors| && doors[k] == Along(c, l.o);
    }
  }

  /** What one level of `divide` guarantees when it draws a line: the grid keeps its
      shape, the line is an even line strictly inside rect spanning it, only cells
      of the line change, the only open cells left on the line are at odd
      positions, and one to three doors were opened. */
  ghost predicate CutOk(g: Grid, rect: Rect, cut: Cut)
    requires IsGrid(g)
  {
    cut.Cut? ==>
      && IsGrid(cut.grid) && Width(cut.grid) == Width(g) && Height(cut.grid) == Height(g)
      && cut.line == WallLine(rect, cut.line.o, cut.line.at) && Inside(rect, cut.line) && Even(cut.line.at)
      && (forall c :: InBox(c, Width(g), Height(g)) && At(cut.grid, c) != At(g, c) ==> OnLine(c, cut.line))
      && (forall c :: InBox(c, Width(g), Height(g)) && OnLine(c, cut.line) && At(cut.grid, c) == Open ==>
            Odd(Along(c, cut.line.o)))
      && 1 <= cut.doors <= 3
  }

  /** One level of `divide` for a rectangle that passed the size check: either the
      even pick found no line (`wallX === null`) after the orientation draw, or the
      grid with the new wall and its doors. */
  function CutOnce(g: Grid, rect: Rect, depth: nat, p: PresetName, rng: Rng): (r: Cut)
    requires IsGrid(g) && Fits(rect, Width(g), Height(g))
    requires rect.x2 - rect.x1 + 1 >= MinRectSize(p) && rect.y2 - rect.y1 + 1 >= MinRectSize(p)
    ensures r.NoCut? ==> r.rng == NextUint32(rng).1
    ensures CutOk(g, rect, r)
  {
    var (l, rng1) := PickLine(rect, rng);
    if l.None? then NoCut(rng1)
    else
      var (doors, rng2) := DrawDoors(l.value, depth, p, rng1);
      var (g1, placed) := BuildLine(g, l.value, doors);
      Cut(g1, rng2, l.value, placed, |doors|)
  }

  /** `divide(grid, rect, depth, preset, rng, stats)`. Every cell it changes lies in
      rect on an even row or column (so a cell whose coordinates are both odd is
      never written), every cell it opens has an odd coordinate (it is a door), and
      a rectangle below the preset's size is left alone without a draw. */
  function Divide(g: Grid, rect: Rect, depth: nat, p: PresetName, rng: Rng, stats: Stats): (r: (Grid, Rng, Stats))
    requires IsGrid(g) && Fits(rect, Width(g), Height(g))
    decreases (rect.x2 - rect.x1) + (rect.y2 - rect.y1), 1
    ensures IsGrid(r.0) && Width(r.0) == Width(g) && Height(r.0) == Height(g)
    ensures forall c :: InBox(c, Width(g), Height(g)) && At(r.0, c) != At(g, c) ==>
      InRect(c, rect) && (Even(c.x) || Even(c.y))
    ensures forall c :: InBox(c, Width(g), Height(g)) && At(r.0, c) == Open && At(g, c) != Open ==>
      Odd(c.x) || Odd(c.y)
    ensures rect.x2 - rect.x1 + 1 < MinRectSize(p) || rect.y2 - rect.y1 + 1 < MinRectSize(p) ==>
      r == (g, rng, stats.(maxDepth := Max(stats.maxDepth, depth)))
    ensures r.2.maxDepth >= Max(stats.maxDepth, depth)
    ensures r.2.wallsPlaced >= stats.wallsPlaced && r.2.doorCountTotal >= stats.doorCountTotal
  {
    if rect.x2 - rect.x1 + 1 < MinRectSize(p) || rect.y2 - rect.y1 + 1 < MinRectSize(p) then
      (g, rng, stats.(maxDepth := Max(stats.maxDepth, depth)))
    else
      DivideCut(g, rect, depth, p, stats, CutOnce(g, rect, depth, p, rng))
  }

  /** The tail of `divide` once the cut is made: record the flips and doors, then
      divide the first half and the second half in turn. */
  function DivideCut(g: Grid, rect: Rect, depth: nat, p: PresetName, stats: Stats, cut: Cut): (r: (Grid, Rng, Stats))
    requires IsGrid(g) && Fits(rect, Width(g), Height(g)) && CutOk(g, rect, cut)
    requires rect.x2 - rect.x1 + 1 >= MinRectSize(p) && rect.y2 - rect.y1 + 1 >= MinRectSize(p)
    decreases (rect.x2 - rect.x1) + (rect.y2 - rect.y1), 0
    ensures IsGrid(r.0) && Width(r.0) == Width(g) && Height(r.0) == Height(g)
    ensures forall c :: InBox(c, Width(g), Height(g)) && At(r.0, c) != At(g, c) ==>
      InRect(c, rect) && (Even(c.x) || Even(c.y))
    ensures forall c :: InBox(c, Width(g), Height(g)) && At(r.0, c) == Open && At(g, c) != Open ==>
      Odd(c.x) || Odd(c.y)
    ensures cut.NoCut? ==> r == (g, cut.rng, stats.(maxDepth := Max(stats.maxDepth, depth)))
    ensures r.2.maxDepth >= Max(stats.maxDepth, depth)
    ensures r.2.wallsPlaced >= stats.wallsPlaced && r.2.doorCountTotal >= stats.doorCountTotal
  {
    match cut
    case NoCut(rng') => (g, rng', stats.(maxDepth := Max(stats.maxDepth, depth)))
    case Cut(g1, rng1, line, placed, doors) =>
      var stats1 := Stats(stats.maxDepth, stats.wallsPlaced + placed, stats.doorCountTotal + doors);
      var (first, second) := Halves(rect, line);
      var (g2, rng2, stats2) := Divide(g1, first, depth + 1, p, rng1, stats1);
      var r := Divide(g2, second, depth + 1, p, rng2, stats2);
      DivideFrames(g, g1, g2, r.0, rect, line);
      r
  }

  /** How the three writers of one `divide` level compose: the cut changes only its
      line, the first call only the first half, the second call only the second. */
  lemma DivideFrames(g: Grid, g1: Grid, g2: Grid, g3: Grid, rect: Rect, line: Line)
    requires IsGrid(g) && Shaped(g1, Width(g), Height(g)) && Shaped(g2, Width(g), Height(g)) && Shaped(g3, Width(g), Height(g))
    requires line == WallLine(rect, line.o, line.at) && Inside(rect, line) && Even(line.at)
    requires forall c :: InBox(c, Width(g), Height(g)) && At(g1, c) != At(g, c) ==> OnLine(c, line)
    requires forall c :: InBox(c, Width(g), Height(g)) && OnLine(c, line) && At(g1, c) == Open ==> Odd(Along(c, line.o))
    requires forall c :: InBox(c, Width(g), Height(g)) && At(g2, c) != At(g1, c) ==>
      InRect(c, Halves(rect, line).0) && (Even(c.x) || Even(c.y))
    requires forall c :: InBox(c, Width(g), Height(g)) && At(g2, c) == Open && At(g1, c) != Open ==> Odd(c.x) || Odd(c.y)
    requires forall c :: InBox(c, Width(g), Height(g)) && At(g3, c) != At(g2, c) ==>
      InRect(c, Halves(rect, line).1) && (Even(c.x) || Even(c.y))
    requires forall c :: InBox(c, Width(g), Height(g)) && At(g3, c) == Open && At(g2, c) != Open ==> Odd(c.x) || Odd(c.y)
    ensures forall c :: InBox(c, Width(g), Height(g)) && At(g3, c) != At(g, c) ==> InRect(c, rect) && (Even(c.x) || Even(c.y))
    ensures forall c :: InBox(c, Width(g), Height(g)) && At(g3, c) == Open && At(g, c) != Open ==> Odd(c.x) || Odd(c.y)
  {
    forall c | InBox(c, Width(g), Height(g))
      ensures At(g3, c) != At(g, c) ==> InRect(c, rect) && (Even(c.x) || Even(c.y))
      ensures At(g3, c) == Open && At(g, c) != Open ==> Odd(c.x) || Odd(c.y)
    {
      HalvesPartition(rect, line, c);
    }
  }

  // ---------------------------------------------------------------------------
  // One maze, and the retry loop.

  /** `buildGrid(width, height)`: wall on the outer ring, open inside. */
  function BuildGrid(w: nat, h: nat): (r: Grid)
    ensures Shaped(r, w, h)
    ensures forall c :: InBox(c, w, h) ==> At(r, c) == if OnRing(c, w, h) then Wall else Open
  {
    seq(h, y => seq(w, x => if OnRing(Cell(x, y), w, h) then Wall else Open))
  }

  /** `pickStart(grid, rng)`: a uniformly drawn open cell with 1 <= x <=
      floor((width - 2) / 4) and 1 <= y < height - 1, or none (the source then reads
      `undefined`) without a draw. */
  function PickStart(g: Grid, rng: Rng): (r: (Option<Cell>, Rng))
    requires IsGrid(g)
    ensures r.0.None? <==>
      forall c: Cell :: 1 <= c.x <= (Width(g) - 2) / 4 && 1 <= c.y < Height(g) - 1 ==> At(g, c) != Open
    ensures r.0.None? ==> r.1 == rng
    ensures r.0.Some? ==>
      var c := r.0.value; 1 <= c.x <= (Width(g) - 2) / 4 && 1 <= c.y < Height(g) - 1 && At(g, c) == Open
  {
    var box := Scan(1, (Width(g) - 2) / 4 + 1, 1, Height(g) - 1);
    var candidates := OpenAmong(g, box);
    var r := Choice(rng, candidates);
    if r.0.None? then
      assert forall c: Cell :: 1 <= c.x <= (Width(g) - 2) / 4 && 1 <= c.y < Height(g) - 1 ==> At(g, c) != Open by {
        forall c: Cell | 1 <= c.x <= (Width(g) - 2) / 4 && 1 <= c.y < Height(g) - 1
          ensures At(g, c) != Open
        {
          assert c in box;
        }
      }
      r
    else r
  }

  /** The result of `generateOnce`, with the open-cell count in place of `openPct`. */
  datatype Maze = Maze(grid: Grid, start: Cell, exit: Cell, pathLength: nat, stats: Stats, open: nat)

  /** `bfs` from the start and `farthestCell` on its distances: the exit is a cell
      at the greatest distance from s, the first such in row-major order, and the
      distance is that of a shortest walk. */
  function Solve(g: Grid, s: Cell): (r: (Cell, int))
    requires IsGrid(g) && InBox(s, Width(g), Height(g)) && At(g, s) == Open
    ensures InBox(r.0, Width(g), Height(g)) && r.1 >= 0 && At(g, r.0) != Wall
    ensures IsDistance(g, s, r.0, r.1)
    ensures forall c, n :: InBox(c, Width(g), Height(g)) && IsDistance(g, s, c, n) ==> n <= r.1
    ensures forall c, n :: InBox(c, Width(g), Height(g)) && IsDistance(g, s, c, n) && Before(c, r.0) ==> n < r.1
  {
    var res := Bfs(g, s);
    var (exit, distance) := FarthestCell(res.dist);
    ExitIsFarthest(g, s, res.dist, res.parent, exit, distance);
    (exit, distance)
  }

  /** The cell the scan picks out of a finished search table is a farthest
      reachable cell, the first in row-major order among those at its distance. */
  lemma ExitIsFarthest(g: Grid, s: Cell, dist: seq<seq<int>>, parent: seq<seq<Option<Cell>>>,
                       exit: Cell, distance: int)
    requires BfsTree(g, s, dist, parent) && AllSettled(g, dist) && At(g, s) == Open
    requires forall c :: InBox(c, Width(g), Height(g)) ==> At(dist, c) <= distance
    requires distance > -1 ==> InBox(exit, Width(g), Height(g)) && At(dist, exit) == distance
    requires distance > -1 ==> forall c :: InBox(c, Width(g), Height(g)) && Before(c, exit) ==> At(dist, c) < distance
    ensures InBox(exit, Width(g), Height(g)) && distance >= 0 && At(g, exit) != Wall
    ensures IsDistance(g, s, exit, distance)
    ensures forall c, n :: InBox(c, Width(g), Height(g)) && IsDistance(g, s, c, n) ==> n <= distance
    ensures forall c, n :: InBox(c, Width(g), Height(g)) && IsDistance(g, s, c, n) && Before(c, exit) ==> n < distance
  {
    assert At(dist, s) <= distance;
    DistanceAt(g, s, dist, parent, exit);
    WalkEndOpen(g, s, exit, distance);
    forall c, n | InBox(c, Width(g), Height(g)) && IsDistance(g, s, c, n)
      ensures n == At(dist, c)
    {
      DistanceAt(g, s, dist, parent, c);
      assert Reachable(g, s, c) by {
        var p :| WalkFromTo(g, p, s, c) && |p| == n + 1;
      }
      DistanceUnique(g, s, c, n, At(dist, c));
    }
  }

  /** The part of `generateOnce` after `divide` and `pickStart`: search from the
      start and take the farthest cell as the exit; no maze when `pickStart` found
      no start. On a grid whose ring is wall the maze passes `validateMaze` with its
      path length. */
  function Finish(g: Grid, stats: Stats, start: Option<Cell>): (r: Option<Maze>)
    requires IsGrid(g)
    requires start.Some? ==> InBox(start.value, Width(g), Height(g)) && At(g, start.value) == Open
    ensures r.None? <==> start.None?
    ensures r.Some? ==> r.value.grid == g && r.value.start == start.value && r.value.stats == stats
    ensures r.Some? ==> r.value.open == CountMatrix(g, Open)
    ensures r.Some? ==> InBox(r.value.exit, Width(g), Height(g)) && At(g, r.value.exit) != Wall
    ensures r.Some? ==> Farthest(g, r.value.start, r.value.exit, r.value.pathLength)
    ensures r.Some? && RingIsWall(g) ==>
      ValidateMaze(g, Some(r.value.start), Some(r.value.exit)) == Valid(r.value.pathLength)
  {
    if start.None? then None
    else
      var (exit, distance) := Solve(g, start.value);
      assert Farthest(g, start.value, exit, distance);
      assert RingIsWall(g) ==> ValidateMaze(g, start, Some(exit)) == Valid(distance) by {
        if RingIsWall(g) {
          AcceptedWith(g, start.value, exit, distance);
        }
      }
      Some(Maze(g, start.value, exit, distance, stats, CountMatrix(g, Open)))
  }

  /** The last cell of a shortest walk from an open cell is not a wall. */
  lemma WalkEndOpen(g: Grid, s: Cell, t: Cell, n: int)
    requires IsGrid(g) && InBox(s, Width(g), Height(g)) && At(g, s) == Open
    requires IsDistance(g, s, t, n)
    ensures At(g, t) != Wall
  {
    var p :| WalkFromTo(g, p, s, t) && |p| == n + 1;
    if |p| > 1 {
      assert At(g, p[|p| - 1]) != Wall;
    }
  }

  /** After `divide` on [1, w - 2] x [1, h - 2] of a fresh grid, the ring is still
      wall and the cell (1, 1), whose coordinates are both odd, is still open. */
  lemma DividedGrid(w: nat, h: nat, g0: Grid, g: Grid)
    requires w >= 1 && h >= 1 && g0 == BuildGrid(w, h)
    requires IsGrid(g) && Width(g) == w && Height(g) == h
    requires forall c :: InBox(c, w, h) && At(g, c) != At(g0, c) ==>
      InRect(c, Rect(1, 1, w - 2, h - 2)) && (Even(c.x) || Even(c.y))
    ensures RingIsWall(g)
    ensures w >= 3 && h >= 3 ==> At(g, Cell(1, 1)) == Open
  {
    assert At(g0, Cell(0, 0)) == Wall;
    forall c | InBox(c, w, h) && OnRing(c, w, h)
      ensures At(g, c) == Wall
    {
      assert At(g0, c) == Wall;
    }
    if w >= 3 && h >= 3 {
      assert At(g0, Cell(1, 1)) == Open;
    }
  }

  /** What every maze of `generateOnce(w, h, ...)` satisfies: the requested size, a
      solid ring, an open start in the left quarter of an interior row, the exit
      the first farthest cell from the start with the path length its distance, and
      acceptance by `validateMaze` with that path length. */
  ghost predicate GoodMaze(w: nat, h: nat, m: Maze) {
    && IsGrid(m.grid) && Width(m.grid) == w && Height(m.grid) == h
    && RingIsWall(m.grid)
    && 1 <= m.start.x <= (w - 2) / 4 && 1 <= m.start.y < h - 1 && At(m.grid, m.start) == Open
    && Farthest(m.grid, m.start, m.exit, m.pathLength)
    && ValidateMaze(m.grid, Some(m.start), Some(m.exit)) == Valid(m.pathLength)
  }

  /** `generateOnce(width, height, preset, rng)`. The source throws when `pickStart`
      finds no candidate; that is no maze here, and it happens exactly when the
      grid is narrower than 6 or lower than 3. Otherwise the maze is a good one:
      the requested size, a solid ring, the start where `pickStart` draws it, the
      exit the farthest cell, and acceptance by `validateMaze`. */
  function GenerateOnce(w: nat, h: nat, p: PresetName, rng: Rng): (r: Option<Maze>)
    ensures r.Some? <==> w >= 6 && h >= 3
    ensures r.Some? ==> GoodMaze(w, h, r.value)
  {
    if w < 1 || h < 1 then None
    else
      var g0 := BuildGrid(w, h);
      var (g, rng1, stats) := Divide(g0, Rect(1, 1, w - 2, h - 2), 0, p, rng, Stats(0, 0, 0));
      DividedGrid(w, h, g0, g);
      var (start, _) := PickStart(g, rng1);
      assert w >= 6 && h >= 3 ==> start.Some? by {
        if w >= 6 && h >= 3 {
          assert 1 <= (w - 2) / 4;
          assert At(g, Cell(1, 1)) == Open;
        }
      }
      Finish(g, stats, start)
  }

  const MaxAttempts: nat := 6

  /** The result of `generateRecursiveDivision`: the maze with the seed and the
      preset name it was asked for. */
  datatype Generated = Generated(maze: Maze, seed: SeedInput, preset: string)

  /** The loop stops after an attempt whose path length reaches minDistance. */
  predicate Accepted(m: Option<Maze>, minDistance: real) {
    m.None? || m.value.pathLength as real >= minDistance
  }

  /** The generator of attempt k: created from the k-th value `nextUint32()` draws
      from the base generator. */
  function AttemptRng(seed: SeedInput, k: nat): Rng {
    CreateRng(Finite(Draws(CreateRng(seed), k + 1)[k] as int as real))
  }

  /** The attempt loop from attempt `attempt` on, with base the base generator after
      the earlier attempts' draws and once the single-attempt generator
      (`generateOnce` with the width, height and preset fixed). A missing maze stops
      the loop: the source throws there. */
  function Attempts(once: Rng -> Option<Maze>, base: Rng, attempt: nat, minDistance: real): (r: Option<Maze>)
    requires attempt < MaxAttempts
    decreases MaxAttempts - attempt
    ensures exists rng :: once(rng) == r
  {
    var (subSeed, base') := NextUint32(base);
    var result := once(CreateRng(Finite(subSeed as int as real)));
    if Accepted(result, minDistance) || attempt == MaxAttempts - 1 then result
    else Attempts(once, base', attempt + 1, minDistance)
  }

  /** `generateOnce` with the width, height and preset fixed: the attempt the loop
      runs on each fresh generator. */
  function Once(w: nat, h: nat, p: PresetName): Rng -> Option<Maze> {
    rng => GenerateOnce(w, h, p, rng)
  }

  /** `generateRecursiveDivision({ width, height, seed, presetName })`, with
      `0.3 * Math.hypot(width, height)` passed in as minDistance. Unknown preset
      names that are not inherited object properties fall back to preset A. There is a maze exactly when the grid is at least
      6 wide and 3 high, and it is one that `generateOnce` makes. */
  function GenerateRecursiveDivision(w: nat, h: nat, seed: SeedInput, presetName: string, minDistance: real): (r: Option<Generated>)
    ensures r.Some? <==> w >= 6 && h >= 3
    ensures r.Some? ==> r.value.seed == seed && r.value.preset == presetName && GoodMaze(w, h, r.value.maze)
  {
    var result := Attempts(Once(w, h, PresetByName(presetName)), CreateRng(seed), 0, minDistance);
    if result.None? then None else Some(Generated(result.value, seed, presetName))
  }

  /** The attempts from `attempt` on return attempt k when every attempt before k
      was rejected and k is accepted or the last. */
  lemma {:induction false} AttemptsReturn(once: Rng -> Option<Maze>, seed: SeedInput, attempt: nat, k: nat, minDistance: real)
    requires attempt <= k < MaxAttempts
    requires forall j :: attempt <= j < k ==> !Accepted(once(AttemptRng(seed, j)), minDistance)
    requires k == MaxAttempts - 1 || Accepted(once(AttemptRng(seed, k)), minDistance)
    decreases k - attempt
    ensures Attempts(once, AfterDraws(CreateRng(seed), attempt), attempt, minDistance) == once(AttemptRng(seed, k))
  {
    var base := AfterDraws(CreateRng(seed), attempt);
    DrawsFollowStates(CreateRng(seed), attempt + 1, attempt);
    assert CreateRng(Finite(NextUint32(base).0 as int as real)) == AttemptRng(seed, attempt);
    if attempt < k {
      AfterDrawsStep(CreateRng(seed), attempt);
      AttemptsReturn(once, seed, attempt + 1, k, minDistance);
    }
  }

  /** The retry loop returns the first accepted attempt, or the sixth when none is
      accepted; attempt k runs on the k-th draw of the base generator. */
  lemma FirstAcceptedAttempt(w: nat, h: nat, seed: SeedInput, presetName: string, minDistance: real, k: nat)
    requires k < MaxAttempts
    requires forall j :: 0 <= j < k ==>
      !Accepted(GenerateOnce(w, h, PresetByName(presetName), AttemptRng(seed, j)), minDistance)
    requires k == MaxAttempts - 1 || Accepted(GenerateOnce(w, h, PresetByName(presetName), AttemptRng(seed, k)), minDistance)
    ensures GenerateRecursiveDivision(w, h, seed, presetName, minDistance).Some? ==>
      GenerateRecursiveDivision(w, h, seed, presetName, minDistance).value.maze ==
      GenerateOnce(w, h, PresetByName(presetName), AttemptRng(seed, k)).value
  {
    var once := Once(w, h, PresetByName(presetName));
    assert AfterDraws(CreateRng(seed), 0) == CreateRng(seed);
    AttemptsReturn(once, seed, 0, k, minDistance);
    var result := Attempts(once, CreateRng(seed), 0, minDistance);
    assert result == once(AttemptRng(seed, k));
  }
}
