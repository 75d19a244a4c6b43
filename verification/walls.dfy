/** Rectangles and wall lines of src/maze/variant1_recursiveDivision.js, and the two
    loops of `divide` that write a line: raising the wall and opening the doors. */
module Walls {
  import opened Grids

  /** The inclusive rectangle `{ x1, y1, x2, y2 }`. */
  datatype Rect = Rect(x1: int, y1: int, x2: int, y2: int)

  datatype Orientation = Vertical | Horizontal

  /** A wall line: the column `at` (vertical) or the row `at` (horizontal), over the
      positions lo..hi along it. */
  datatype Line = Line(o: Orientation, at: int, lo: int, hi: int)

  predicate InRect(c: Cell, r: Rect) {
    r.x1 <= c.x <= r.x2 && r.y1 <= c.y <= r.y2
  }

  /** Every cell of the rectangle, if it has any, lies in a w-by-h grid. */
  predicate Fits(r: Rect, w: int, h: int) {
    0 <= r.x1 && 0 <= r.y1 && r.x2 < w && r.y2 < h
  }

  /** The position of c along a line of orientation o. */
  function Along(c: Cell, o: Orientation): int {
    if o == Vertical then c.y else c.x
  }

  /** The position of c across a line of orientation o. */
  function Across(c: Cell, o: Orientation): int {
    if o == Vertical then c.x else c.y
  }

  function LineCell(l: Line, k: int): (c: Cell)
    ensures Along(c, l.o) == k && Across(c, l.o) == l.at
  {
    if l.o == Vertical then Cell(l.at, k) else Cell(k, l.at)
  }

  predicate OnLine(c: Cell, l: Line) {
    Across(c, l.o) == l.at && l.lo <= Along(c, l.o) <= l.hi
  }

  /** Every cell of the line lies in a w-by-h grid. */
  predicate LineFits(l: Line, w: int, h: int) {
    l.lo > l.hi || (0 <= l.at && 0 <= l.lo && (if l.o == Vertical then l.at < w && l.hi < h else l.at < h && l.hi < w))
  }

  /** The wall line at `at` across rect: a column for a vertical wall, a row for a
      horizontal one, spanning the rectangle. */
  function WallLine(rect: Rect, o: Orientation, at: int): (l: Line)
    ensures l.o == o && l.at == at
  {
    if o == Vertical then Line(o, at, rect.y1, rect.y2) else Line(o, at, rect.x1, rect.x2)
  }

  /** The line runs strictly inside rect, so both sides of it are non-empty. */
  predicate Inside(rect: Rect, l: Line) {
    if l.o == Vertical then rect.x1 < l.at < rect.x2 else rect.y1 < l.at < rect.y2
  }

  /** The two rectangles `divide` recurses into: left and right of a vertical wall,
      above and below a horizontal one. */
  function Halves(rect: Rect, l: Line): (Rect, Rect) {
    if l.o == Vertical then (Rect(rect.x1, rect.y1, l.at - 1, rect.y2), Rect(l.at + 1, rect.y1, rect.x2, rect.y2))
    else (Rect(rect.x1, rect.y1, rect.x2, l.at - 1), Rect(rect.x1, l.at + 1, rect.x2, rect.y2))
  }

  /** A wall line across rect cuts it into the line and the two halves: every cell of
      rect is in exactly one of them, and the halves are smaller than rect. */
  lemma HalvesPartition(rect: Rect, l: Line, c: Cell)
    requires l == WallLine(rect, l.o, l.at) && Inside(rect, l)
    ensures InRect(c, Halves(rect, l).0) ==> InRect(c, rect) && !OnLine(c, l) && !InRect(c, Halves(rect, l).1)
    ensures InRect(c, Halves(rect, l).1) ==> InRect(c, rect) && !OnLine(c, l)
    ensures OnLine(c, l) ==> InRect(c, rect)
    ensures InRect(c, rect) ==> OnLine(c, l) || InRect(c, Halves(rect, l).0) || InRect(c, Halves(rect, l).1)
  {
  }

  lemma LineCellInBox(l: Line, k: int, w: int, h: int)
    requires LineFits(l, w, h) && l.lo <= k <= l.hi
    ensures InBox(LineCell(l, k), w, h)
  {
  }

  /** One step of the wall loop: `if (grid[y][x] === 0) grid[y][x] = 1`. */
  function RaiseCell(g: Grid, c: Cell): (r: Grid)
    requires IsGrid(g) && InBox(c, Width(g), Height(g))
    ensures IsGrid(r) && Width(r) == Width(g) && Height(r) == Height(g)
    ensures At(r, c) == if At(g, c) == Open then Wall else At(g, c)
    ensures forall d :: InBox(d, Width(g), Height(g)) && d != c ==> At(r, d) == At(g, d)
    ensures CountMatrix(r, Open) + (if At(g, c) == Open then 1 else 0) == CountMatrix(g, Open)
  {
    PutCount(g, c, Wall, Open);
    if At(g, c) == Open then Put(g, c, Wall) else g
  }

  /** The wall loop: every open cell of the line becomes a wall, and `placed` counts
      those flips. Cells holding anything other than 0 are left as they are. */
  function RaiseWall(g: Grid, l: Line): (r: (Grid, nat))
    requires IsGrid(g) && LineFits(l, Width(g), Height(g))
    decreases l.hi - l.lo
    ensures IsGrid(r.0) && Width(r.0) == Width(g) && Height(r.0) == Height(g)
    ensures forall c :: InBox(c, Width(g), Height(g)) ==>
      At(r.0, c) == if OnLine(c, l) && At(g, c) == Open then Wall else At(g, c)
    ensures CountMatrix(r.0, Open) + r.1 == CountMatrix(g, Open)
  {
    if l.lo > l.hi then (g, 0)
    else
      var c := LineCell(l, l.lo);
      LineCellInBox(l, l.lo, Width(g), Height(g));
      var g1 := RaiseCell(g, c);
      var rest := l.(lo := l.lo + 1);
      var (g2, placed) := RaiseWall(g1, rest);
      RaiseStep(g, g1, g2, l, c);
      (g2, placed + if At(g, c) == Open then 1 else 0)
  }

  /** Raising the first cell of the line and then the rest raises the whole line. */
  lemma RaiseStep(g: Grid, g1: Grid, g2: Grid, l: Line, c: Cell)
    requires IsGrid(g) && Shaped(g1, Width(g), Height(g)) && Shaped(g2, Width(g), Height(g))
    requires l.lo <= l.hi && c == LineCell(l, l.lo)
    requires forall d :: InBox(d, Width(g), Height(g)) && d != c ==> At(g1, d) == At(g, d)
    requires InBox(c, Width(g), Height(g)) && At(g1, c) == if At(g, c) == Open then Wall else At(g, c)
    requires forall d :: InBox(d, Width(g), Height(g)) ==>
      At(g2, d) == if OnLine(d, l.(lo := l.lo + 1)) && At(g1, d) == Open then Wall else At(g1, d)
    ensures forall d :: InBox(d, Width(g), Height(g)) ==>
      At(g2, d) == if OnLine(d, l) && At(g, d) == Open then Wall else At(g, d)
  {
    forall d | InBox(d, Width(g), Height(g))
      ensures At(g2, d) == if OnLine(d, l) && At(g, d) == Open then Wall else At(g, d)
    {
      if d != c {
        assert OnLine(d, l) <==> OnLine(d, l.(lo := l.lo + 1));
      }
    }
  }

  /** The door loop: each chosen position of the line is opened. */
  function OpenDoors(g: Grid, l: Line, doors: seq<int>): (r: Grid)
    requires IsGrid(g) && LineFits(l, Width(g), Height(g))
    requires forall i :: 0 <= i < |doors| ==> l.lo <= doors[i] <= l.hi
    decreases |doors|
    ensures IsGrid(r) && Width(r) == Width(g) && Height(r) == Height(g)
    ensures forall c :: InBox(c, Width(g), Height(g)) ==>
      At(r, c) == if OnLine(c, l) && Along(c, l.o) in doors then Open else At(g, c)
  {
    if |doors| == 0 then g
    else
      LineCellInBox(l, doors[0], Width(g), Height(g));
      var r := OpenDoors(Put(g, LineCell(l, doors[0]), Open), l, doors[1..]);
      assert forall p :: p in doors <==> p == doors[0] || p in doors[1..];
      r
  }
}
