/** Cells, rectangular matrices and the row-major scan shared by every part of the
    maze engine. A grid is a matrix of ints in which 1 is a wall and 0 is open;
    other values occur only in hand-made inputs, and each operation treats them the
    way its source does (most checks compare against 1, the open count against 0). */
module Grids {

  datatype Option<T> = None | Some(value: T)

  /** An (x, y) coordinate pair; x is the column and y the row. */
  datatype Cell = Cell(x: int, y: int)

  type Grid = seq<seq<int>>

  const Open: int := 0
  const Wall: int := 1

  /** m has h rows and each row has w entries. */
  predicate Shaped<T>(m: seq<seq<T>>, w: int, h: int) {
    |m| == h && forall y :: 0 <= y < h ==> |m[y]| == w
  }

  /** A non-empty rectangular grid; its width is the length of row 0. */
  predicate IsGrid(g: Grid) {
    |g| > 0 && |g[0]| > 0 && Shaped(g, |g[0]|, |g|)
  }

  function Width<T>(m: seq<seq<T>>): nat
    requires |m| > 0
  {
    |m[0]|
  }

  function Height<T>(m: seq<seq<T>>): nat {
    |m|
  }

  predicate InBox(c: Cell, w: int, h: int) {
    0 <= c.x < w && 0 <= c.y < h
  }

  /** Row 0, the last row, column 0 or the last column. */
  predicate OnRing(c: Cell, w: int, h: int) {
    c.x == 0 || c.y == 0 || c.x == w - 1 || c.y == h - 1
  }

  /** Strictly inside the outer ring. */
  predicate Interior(c: Cell, w: int, h: int) {
    0 < c.x < w - 1 && 0 < c.y < h - 1
  }

  predicate InMatrix<T>(m: seq<seq<T>>, c: Cell) {
    0 <= c.y < |m| && 0 <= c.x < |m[c.y]|
  }

  function At<T>(m: seq<seq<T>>, c: Cell): T
    requires InMatrix(m, c)
  {
    m[c.y][c.x]
  }

  /** The matrix with the entry at c replaced by v. */
  function Put<T>(m: seq<seq<T>>, c: Cell, v: T): (r: seq<seq<T>>)
    requires InMatrix(m, c)
    ensures |r| == |m|
    ensures forall y :: 0 <= y < |m| ==> |r[y]| == |m[y]|
    ensures At(r, c) == v
    ensures forall d :: InMatrix(m, d) && d != c ==> At(r, d) == At(m, d)
  {
    m[c.y := m[c.y][c.x := v]]
  }

  /** A w-by-h matrix holding v everywhere. */
  function Fill<T>(w: nat, h: nat, v: T): (r: seq<seq<T>>)
    ensures Shaped(r, w, h)
    ensures forall c :: InBox(c, w, h) ==> At(r, c) == v
  {
    seq(h, _ => seq(w, _ => v))
  }

  /** Every ring cell of g is a wall. */
  ghost predicate RingIsWall(g: Grid)
    requires IsGrid(g)
  {
    forall c :: InBox(c, Width(g), Height(g)) && OnRing(c, Width(g), Height(g)) ==> At(g, c) == Wall
  }

  /** Every cell is open or wall. */
  ghost predicate Binary(g: Grid)
    requires IsGrid(g)
  {
    forall c :: InBox(c, Width(g), Height(g)) ==> At(g, c) == Open || At(g, c) == Wall
  }

  /** The ring becomes wall and everything inside stays: the border loops of the
      hierarchical generator, and the grid a flood fill confined to the interior
      effectively searches. */
  function Reborder(g: Grid): (r: Grid)
    requires IsGrid(g)
    ensures IsGrid(r) && Width(r) == Width(g) && Height(r) == Height(g)
    ensures RingIsWall(r)
    ensures forall c :: Interior(c, Width(g), Height(g)) ==> At(r, c) == At(g, c)
  {
    seq(Height(g), y requires 0 <= y < Height(g) =>
      seq(Width(g), x requires 0 <= x < Width(g) =>
        if OnRing(Cell(x, y), Width(g), Height(g)) then Wall else g[y][x]))
  }

  /** Every cell that differs between g and g2 is open in g2 and strictly inside
      the ring. */
  ghost predicate OpensInside(g: Grid, g2: Grid)
    requires IsGrid(g) && IsGrid(g2) && Width(g) == Width(g2) && Height(g) == Height(g2)
  {
    forall c :: InBox(c, Width(g), Height(g)) && At(g2, c) != At(g, c) ==>
      At(g2, c) == Open && Interior(c, Width(g), Height(g))
  }

  lemma OpensInsideTrans(g1: Grid, g2: Grid, g3: Grid)
    requires IsGrid(g1) && IsGrid(g2) && IsGrid(g3)
    requires Width(g1) == Width(g2) == Width(g3) && Height(g1) == Height(g2) == Height(g3)
    requires OpensInside(g1, g2) && OpensInside(g2, g3)
    ensures OpensInside(g1, g3)
  {
  }

  /** 4-neighbour adjacency. */
  predicate Adjacent(a: Cell, b: Cell) {
    (a.x == b.x && (a.y - b.y == 1 || b.y - a.y == 1)) ||
    (a.y == b.y && (a.x - b.x == 1 || b.x - a.x == 1))
  }

  /** The four neighbours in the order the searches visit them: +x, -x, +y, -y. */
  function Neighbour(a: Cell, k: int): (b: Cell)
    requires 0 <= k < 4
    ensures Adjacent(a, b)
  {
    if k == 0 then Cell(a.x + 1, a.y)
    else if k == 1 then Cell(a.x - 1, a.y)
    else if k == 2 then Cell(a.x, a.y + 1)
    else Cell(a.x, a.y - 1)
  }

  lemma AdjacentIsNeighbour(a: Cell, b: Cell)
    requires Adjacent(a, b)
    ensures exists k :: 0 <= k < 4 && Neighbour(a, k) == b
  {
    if b == Cell(a.x + 1, a.y) { assert Neighbour(a, 0) == b; }
    else if b == Cell(a.x - 1, a.y) { assert Neighbour(a, 1) == b; }
    else if b == Cell(a.x, a.y + 1) { assert Neighbour(a, 2) == b; }
    else { assert Neighbour(a, 3) == b; }
  }

  /** Row-major order: earlier row first, then smaller column. */
  predicate Before(a: Cell, b: Cell) {
    a.y < b.y || (a.y == b.y && a.x < b.x)
  }

  predicate RowMajorSorted(s: seq<Cell>) {
    forall i, j :: 0 <= i < j < |s| ==> Before(s[i], s[j])
  }

  /** The cells (x0..x1-1, y) from left to right. */
  function Row(y: int, x0: int, x1: int): (r: seq<Cell>)
    decreases x1 - x0
    ensures forall c :: c in r <==> c.y == y && x0 <= c.x < x1
    ensures RowMajorSorted(r)
  {
    if x0 >= x1 then [] else [Cell(x0, y)] + Row(y, x0 + 1, x1)
  }

  /** The cells of the box [x0, x1) x [y0, y1) in row-major order: the order of the
      nested `for (y ...) for (x ...)` loops of the source. */
  function Scan(x0: int, x1: int, y0: int, y1: int): (r: seq<Cell>)
    decreases y1 - y0
    ensures forall c :: c in r <==> x0 <= c.x < x1 && y0 <= c.y < y1
    ensures RowMajorSorted(r)
  {
    if y0 >= y1 then []
    else
      var first := Row(y0, x0, x1);
      var rest := Scan(x0, x1, y0 + 1, y1);
      assert forall i, j :: 0 <= i < |first| && 0 <= j < |rest| ==> Before(first[i], rest[j]) by {
        forall i, j | 0 <= i < |first| && 0 <= j < |rest|
          ensures Before(first[i], rest[j])
        {
          assert first[i] in first;
          assert rest[j] in rest;
        }
      }
      first + rest
  }

  /** Every cell of a grid, row by row. */
  function AllCells<T>(m: seq<seq<T>>): seq<Cell>
    requires |m| > 0
  {
    Scan(0, Width(m), 0, Height(m))
  }

  /** The open cells among cells, in the order given. */
  function OpenAmong(g: Grid, cells: seq<Cell>): (r: seq<Cell>)
    requires forall c :: c in cells ==> InMatrix(g, c)
    ensures forall c :: c in r <==> c in cells && At(g, c) == Open
  {
    if |cells| == 0 then []
    else (if At(g, cells[0]) == Open then [cells[0]] else []) + OpenAmong(g, cells[1..])
  }

  /** `neighbors.filter((n) => !visited.has(n))`: the members of ns not yet
      visited, in the order given. */
  function Unvisited<T(==,!new)>(ns: seq<T>, visited: set<T>): (r: seq<T>)
    ensures forall n :: n in r <==> n in ns && n !in visited
  {
    if |ns| == 0 then []
    else (if ns[0] in visited then [] else [ns[0]]) + Unvisited(ns[1..], visited)
  }

  lemma SortedDistinct(s: seq<Cell>)
    requires RowMajorSorted(s)
    ensures forall i, j :: 0 <= i < j < |s| ==> s[i] != s[j]
  {
  }

  /** In a row-major sorted list, a cell listed later is never before an earlier one. */
  lemma SortedIndexOrder(s: seq<Cell>, i: int, j: int)
    requires RowMajorSorted(s)
    requires 0 <= i < |s| && 0 <= j < |s|
    requires Before(s[i], s[j])
    ensures i < j
  {
  }

  // ---------------------------------------------------------------------------
  // Counting entries.

  /** The number of entries of row equal to v. */
  function CountRow(row: seq<int>, v: int): nat {
    if |row| == 0 then 0 else (if row[0] == v then 1 else 0) + CountRow(row[1..], v)
  }

  /** The number of entries of m equal to v. */
  function CountMatrix(m: seq<seq<int>>, v: int): nat {
    if |m| == 0 then 0 else CountRow(m[0], v) + CountMatrix(m[1..], v)
  }

  lemma {:induction false} CountRowUpdate(row: seq<int>, x: int, v: int, w: int)
    requires 0 <= x < |row|
    decreases |row|
    ensures CountRow(row[x := w], v) ==
      CountRow(row, v) - (if row[x] == v then 1 else 0) + (if w == v then 1 else 0)
  {
    if x > 0 {
      assert row[x := w][1..] == row[1..][x - 1 := w];
      CountRowUpdate(row[1..], x - 1, v, w);
    } else {
      assert row[x := w][1..] == row[1..];
    }
  }

  lemma {:induction false} CountMatrixUpdate(m: seq<seq<int>>, y: int, r: seq<int>, v: int)
    requires 0 <= y < |m|
    decreases |m|
    ensures CountMatrix(m[y := r], v) == CountMatrix(m, v) - CountRow(m[y], v) + CountRow(r, v)
  {
    if y > 0 {
      assert m[y := r][1..] == m[1..][y - 1 := r];
      CountMatrixUpdate(m[1..], y - 1, r, v);
    } else {
      assert m[y := r][1..] == m[1..];
    }
  }

  /** Writing one entry changes the count of v by the entry's loss and gain. */
  lemma PutCount(m: seq<seq<int>>, c: Cell, w: int, v: int)
    requires InMatrix(m, c)
    ensures CountMatrix(Put(m, c, w), v) ==
      CountMatrix(m, v) - (if At(m, c) == v then 1 else 0) + (if w == v then 1 else 0)
  {
    CountRowUpdate(m[c.y], c.x, v, w);
    CountMatrixUpdate(m, c.y, m[c.y][c.x := w], v);
  }

  lemma {:induction false} CountConstRow(w: nat, v: int)
    decreases w
    ensures CountRow(seq(w, _ => v), v) == w
  {
    if w > 0 {
      assert seq(w, _ => v)[1..] == seq(w - 1, _ => v);
      CountConstRow(w - 1, v);
    }
  }

  lemma {:induction false} CountFill(w: nat, h: nat, v: int)
    decreases h
    ensures CountMatrix(Fill(w, h, v), v) == w * h
  {
    if h > 0 {
      assert Fill(w, h, v)[1..] == Fill(w, h - 1, v);
      CountConstRow(w, v);
      CountFill(w, h - 1, v);
    }
  }

  lemma {:induction false} CountRowMonotone(r1: seq<int>, r2: seq<int>, v: int)
    requires |r1| == |r2|
    requires forall i :: 0 <= i < |r1| && r1[i] == v ==> r2[i] == v
    decreases |r1|
    ensures CountRow(r2, v) >= CountRow(r1, v)
  {
    if |r1| > 0 {
      CountRowMonotone(r1[1..], r2[1..], v);
    }
  }

  /** Where m1 holds v, so does m2: m2 holds v at least as often. */
  lemma {:induction false} CountMatrixMonotone(m1: seq<seq<int>>, m2: seq<seq<int>>, v: int)
    requires |m1| == |m2| && forall y :: 0 <= y < |m1| ==> |m1[y]| == |m2[y]|
    requires forall y, x :: 0 <= y < |m1| && 0 <= x < |m1[y]| && m1[y][x] == v ==> m2[y][x] == v
    decreases |m1|
    ensures CountMatrix(m2, v) >= CountMatrix(m1, v)
  {
    if |m1| > 0 {
      CountRowMonotone(m1[0], m2[0], v);
      CountMatrixMonotone(m1[1..], m2[1..], v);
    }
  }

}
