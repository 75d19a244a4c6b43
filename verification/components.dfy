/** Pruning to the largest interior component, `keepLargestComponent` of
    src/maze/variant3_fbmCaves.js: 4-connected components of the cells strictly
    inside the ring, the sweep that finds the first largest one, and the pass that
    walls in every other open cell. */
module Components {
  import opened Grids
  import opened Search
  import opened Pathfinding

  // ---------------------------------------------------------------------------
  // Interior components.

  /** The interior cells in row-major order: the sweep of every interior loop of
      the file. */
  function Inner(g: Grid): (r: seq<Cell>)
    requires IsGrid(g)
    ensures forall c :: c in r <==> Interior(c, Width(g), Height(g))
    ensures RowMajorSorted(r)
  {
    Scan(1, Width(g) - 1, 1, Height(g) - 1)
  }

  /** A cell the flood fill may enter: strictly inside the ring and not a wall. */
  predicate Floor(g: Grid, c: Cell)
    requires IsGrid(g)
  {
    Interior(c, Width(g), Height(g)) && At(g, c) != Wall
  }

  /** A walk of 4-adjacent floor cells. */
  ghost predicate FloorWalk(g: Grid, p: seq<Cell>)
    requires IsGrid(g)
  {
    && |p| > 0
    && (forall i :: 0 <= i < |p| ==> Floor(g, p[i]))
    && (forall i :: 1 <= i < |p| ==> Adjacent(p[i - 1], p[i]))
  }

  /** s and t lie in the same 4-connected interior component. */
  ghost predicate Connected(g: Grid, s: Cell, t: Cell)
    requires IsGrid(g)
  {
    exists p :: FloorWalk(g, p) && p[0] == s && p[|p| - 1] == t
  }

  /** The interior component of s. */
  ghost function ComponentOf(g: Grid, s: Cell): set<Cell>
    requires IsGrid(g)
  {
    set t | t in Inner(g) && Connected(g, s, t)
  }

  lemma InComponent(g: Grid, s: Cell, t: Cell)
    requires IsGrid(g)
    ensures t in ComponentOf(g, s) <==> Connected(g, s, t)
  {
    if Connected(g, s, t) {
      var p :| FloorWalk(g, p) && p[0] == s && p[|p| - 1] == t;
      assert Floor(g, p[|p| - 1]);
    }
  }

  /** A floor cell lies in its own component. */
  lemma OwnComponent(g: Grid, s: Cell)
    requires IsGrid(g)
    ensures Floor(g, s) ==> s in ComponentOf(g, s)
  {
    if Floor(g, s) {
      assert FloorWalk(g, [s]);
      InComponent(g, s, s);
    }
  }

  lemma ConnectedSym(g: Grid, s: Cell, t: Cell)
    requires IsGrid(g) && Connected(g, s, t)
    ensures Connected(g, t, s)
  {
    var p :| FloorWalk(g, p) && p[0] == s && p[|p| - 1] == t;
    var n := |p|;
    var q := seq(n, i requires 0 <= i < n => p[n - 1 - i]);
    forall i | 1 <= i < n
      ensures Adjacent(q[i - 1], q[i])
    {
      assert Adjacent(p[n - 1 - i], p[n - i]);
    }
    assert FloorWalk(g, q);
  }

  lemma ConnectedTrans(g: Grid, s: Cell, t: Cell, u: Cell)
    requires IsGrid(g) && Connected(g, s, t) && Connected(g, t, u)
    ensures Connected(g, s, u)
  {
    var p :| FloorWalk(g, p) && p[0] == s && p[|p| - 1] == t;
    var q :| FloorWalk(g, q) && q[0] == t && q[|q| - 1] == u;
    var r := p + q[1..];
    forall i | 0 <= i < |r|
      ensures Floor(g, r[i])
    {
      if i >= |p| { assert r[i] == q[i - |p| + 1]; }
    }
    forall i | 1 <= i < |r|
      ensures Adjacent(r[i - 1], r[i])
    {
      if i > |p| { assert r[i - 1] == q[i - |p|] && r[i] == q[i - |p| + 1]; }
      else if i == |p| { assert r[i - 1] == q[0] && r[i] == q[1]; }
    }
    assert FloorWalk(g, r);
  }

  /** Components are equivalence classes: a cell of s's component has the same
      component. */
  lemma SameComponent(g: Grid, s: Cell, t: Cell)
    requires IsGrid(g) && t in ComponentOf(g, s)
    ensures ComponentOf(g, t) == ComponentOf(g, s)
  {
    InComponent(g, s, t);
    forall u
      ensures u in ComponentOf(g, t) <==> u in ComponentOf(g, s)
    {
      InComponent(g, t, u);
      InComponent(g, s, u);
      if Connected(g, t, u) {
        ConnectedTrans(g, s, t, u);
      }
      if Connected(g, s, u) {
        ConnectedSym(g, s, t);
        ConnectedTrans(g, t, s, u);
      }
    }
  }

  /** A walk of the re-walled grid from a floor cell is a floor walk, and back: so
      the breadth-first search of that grid reaches exactly the component. */
  lemma RewalledWalks(g: Grid, s: Cell, t: Cell)
    requires IsGrid(g) && Floor(g, s)
    ensures Reachable(Reborder(g), s, t) <==> Connected(g, s, t)
  {
    var r := Reborder(g);
    if Reachable(r, s, t) {
      var p :| WalkFromTo(r, p, s, t);
      forall i | 0 <= i < |p|
        ensures Floor(g, p[i])
      {
        if i > 0 {
          assert At(r, p[i]) != Wall;
          assert !OnRing(p[i], Width(g), Height(g));
        }
      }
      assert FloorWalk(g, p);
    }
    if Connected(g, s, t) {
      var p :| FloorWalk(g, p) && p[0] == s && p[|p| - 1] == t;
      forall i | 0 <= i < |p|
        ensures InBox(p[i], Width(g), Height(g)) && At(r, p[i]) == At(g, p[i])
      {
        assert Floor(g, p[i]);
      }
      assert WalkFromTo(r, p, s, t);
    }
  }

  lemma SearchIsComponent(g: Grid, s: Cell, res: BfsResult)
    requires IsGrid(g) && Floor(g, s)
    requires Shaped(res.dist, Width(g), Height(g))
    requires BfsTree(Reborder(g), s, res.dist, res.parent) && AllSettled(Reborder(g), res.dist)
    ensures forall t :: t in Inner(g) ==> (At(res.dist, t) != -1 <==> Connected(g, s, t))
  {
    forall t | t in Inner(g)
      ensures At(res.dist, t) != -1 <==> Connected(g, s, t)
    {
      DistanceAt(Reborder(g), s, res.dist, res.parent, t);
      RewalledWalks(g, s, t);
    }
  }

  /** The flood fill from s of `keepLargestComponent`. The source's queue, its
      bounds test and its `visited` marks are the breadth-first search of
      src/pathfinding.js run on the grid with its ring walled in; only the set of
      cells reached matters to the caller. */
  function Component(g: Grid, s: Cell): (r: set<Cell>)
    requires IsGrid(g) && Floor(g, s)
    ensures r == ComponentOf(g, s)
  {
    Searched(g, s, Bfs(Reborder(g), s))
  }

  /** The interior cells a search of the re-walled grid from s has reached. */
  function Searched(g: Grid, s: Cell, res: BfsResult): (r: set<Cell>)
    requires IsGrid(g) && Floor(g, s)
    requires Shaped(res.dist, Width(g), Height(g))
    requires BfsTree(Reborder(g), s, res.dist, res.parent) && AllSettled(Reborder(g), res.dist)
    ensures r == ComponentOf(g, s)
  {
    SearchIsComponent(g, s, res);
    var r := set t | t in Inner(g) && At(res.dist, t) != -1;
    assert forall t :: t in r <==> t in ComponentOf(g, s);
    r
  }

  /** The largest component of g: the sweep with the flood fill of each cell. */
  function LargestComponent(g: Grid): (L: set<Cell>)
    requires IsGrid(g)
    ensures FirstLargest(g, L)
  {
    var flood := c => if Floor(g, c) then Component(g, c) else {};
    FloodClasses(g, flood);
    LargestScan(g, flood, 0, {}, {}, -1)
  }

  // ---------------------------------------------------------------------------
  // The largest component.

  /** s is the first floor cell in row-major order whose component is as large as
      any. */
  ghost predicate LargestSeed(g: Grid, s: Cell)
    requires IsGrid(g)
  {
    && Floor(g, s)
    && (forall t :: Floor(g, t) ==> |ComponentOf(g, t)| <= |ComponentOf(g, s)|)
    && (forall t :: Floor(g, t) && Before(t, s) ==> |ComponentOf(g, t)| < |ComponentOf(g, s)|)
  }

  /** L is the first largest interior component, or empty when there is no floor
      cell at all. */
  ghost predicate FirstLargest(g: Grid, L: set<Cell>)
    requires IsGrid(g)
  {
    if exists s :: Floor(g, s) then exists s :: LargestSeed(g, s) && L == ComponentOf(g, s)
    else L == {}
  }

  /** flood returns the component of every floor cell. */
  ghost predicate Floods(g: Grid, flood: Cell -> set<Cell>)
    requires IsGrid(g)
  {
    forall c :: Floor(g, c) ==> flood(c) == ComponentOf(g, c)
  }

  /** C assigns each floor cell a class holding it, and every member of a class
      has a class of the same size. */
  ghost predicate ClassesOf(g: Grid, C: Cell -> set<Cell>)
    requires IsGrid(g)
  {
    && (forall c :: Floor(g, c) ==> c in C(c))
    && (forall c, t :: Floor(g, c) && t in C(c) ==> |C(t)| == |C(c)|)
  }

  lemma FloodClasses(g: Grid, flood: Cell -> set<Cell>)
    requires IsGrid(g) && Floods(g, flood)
    ensures ClassesOf(g, flood)
  {
    forall c | Floor(g, c)
      ensures c in flood(c)
    {
      OwnComponent(g, c);
    }
    forall c, t | Floor(g, c) && t in flood(c)
      ensures |flood(t)| == |flood(c)|
    {
      InComponent(g, c, t);
      assert Floor(g, t);
      SameComponent(g, c, t);
    }
  }

  /** What the sweep knows after the first k interior cells: no class met so far,
      and none holding a visited cell, is larger than best; best is the class of
      the si-th cell (none yet when si is -1), and every cell met before that one
      has a smaller class. */
  ghost predicate Swept(g: Grid, C: Cell -> set<Cell>, k: nat, visited: set<Cell>, best: set<Cell>, si: int)
    requires IsGrid(g) && k <= |Inner(g)|
  {
    var cells := Inner(g);
    && (forall i :: 0 <= i < k && Floor(g, cells[i]) ==> |C(cells[i])| <= |best|)
    && (forall t :: t in visited && Floor(g, t) ==> |C(t)| <= |best|)
    && -1 <= si < k
    && (si == -1 ==> best == {})
    && (si >= 0 ==> Floor(g, cells[si]) && best == C(cells[si]))
    && (forall i :: 0 <= i < si && Floor(g, cells[i]) ==> |C(cells[i])| < |best|)
  }

  /** The sweep of `keepLargestComponent` from the k-th interior cell on: walls and
      visited cells are skipped, every other cell's component is flooded and
      marked, and it replaces the best one only when strictly larger, so the first
      of several equal ones stays. */
  function LargestScan(g: Grid, flood: Cell -> set<Cell>, k: nat, visited: set<Cell>, best: set<Cell>,
                       ghost si: int): (r: set<Cell>)
    requires IsGrid(g) && k <= |Inner(g)| && Floods(g, flood) && ClassesOf(g, flood)
    requires Swept(g, flood, k, visited, best, si)
    decreases |Inner(g)| - k
    ensures FirstLargest(g, r)
  {
    if k == |Inner(g)| then
      SweptAll(g, flood, visited, best, si);
      best
    else
      var c := Inner(g)[k];
      assert c in Inner(g);
      if At(g, c) == Wall || c in visited then
        PassStep(g, flood, k, visited, best, si, {});
        LargestScan(g, flood, k + 1, visited, best, si)
      else
        var comp := flood(c);
        if |comp| > |best| then
          TakeStep(g, flood, k, visited, best, si);
          LargestScan(g, flood, k + 1, visited + comp, comp, k)
        else
          PassStep(g, flood, k, visited, best, si, comp);
          LargestScan(g, flood, k + 1, visited + comp, best, si)
  }

  /** The k-th cell is a wall, already visited, or floods a class no larger than
      best: best and its seed stay. */
  lemma PassStep(g: Grid, C: Cell -> set<Cell>, k: nat, visited: set<Cell>, best: set<Cell>, si: int, comp: set<Cell>)
    requires IsGrid(g) && k < |Inner(g)| && ClassesOf(g, C) && Swept(g, C, k, visited, best, si)
    requires var c := Inner(g)[k];
      || (comp == {} && (At(g, c) == Wall || c in visited))
      || (Floor(g, c) && comp == C(c) && |comp| <= |best|)
    ensures Swept(g, C, k + 1, visited + comp, best, si)
  {
  }

  /** The k-th cell floods a class larger than best: it becomes the new best with
      the k-th cell as its seed. */
  lemma TakeStep(g: Grid, C: Cell -> set<Cell>, k: nat, visited: set<Cell>, best: set<Cell>, si: int)
    requires IsGrid(g) && k < |Inner(g)| && ClassesOf(g, C) && Swept(g, C, k, visited, best, si)
    requires Floor(g, Inner(g)[k]) && |C(Inner(g)[k])| > |best|
    ensures Swept(g, C, k + 1, visited + C(Inner(g)[k]), C(Inner(g)[k]), k)
  {
  }

  /** After the last cell the sweep has found the first largest component. */
  lemma SweptAll(g: Grid, C: Cell -> set<Cell>, visited: set<Cell>, best: set<Cell>, si: int)
    requires IsGrid(g) && Floods(g, C) && ClassesOf(g, C) && Swept(g, C, |Inner(g)|, visited, best, si)
    ensures FirstLargest(g, best)
  {
    var cells := Inner(g);
    if si >= 0 {
      forall t | Floor(g, t)
        ensures |ComponentOf(g, t)| <= |best|
        ensures Before(t, cells[si]) ==> |ComponentOf(g, t)| < |best|
      {
        var i :| 0 <= i < |cells| && cells[i] == t;
        if Before(t, cells[si]) {
          SortedIndexOrder(cells, i, si);
        }
      }
      assert LargestSeed(g, cells[si]);
    } else {
      forall s
        ensures !Floor(g, s)
      {
        if s in cells {
          var i :| 0 <= i < |cells| && cells[i] == s;
        }
      }
    }
  }

  /** The second sweep: each interior cell holding 0 outside keep becomes a wall. */
  function Prune(g: Grid, keep: set<Cell>): (r: Grid)
    requires IsGrid(g)
    ensures IsGrid(r) && Width(r) == Width(g) && Height(r) == Height(g)
    ensures forall c :: InBox(c, Width(g), Height(g)) && At(r, c) != At(g, c) ==>
      Interior(c, Width(g), Height(g)) && At(g, c) == Open && At(r, c) == Wall
    ensures forall c :: Interior(c, Width(g), Height(g)) ==>
      (At(r, c) == Open <==> At(g, c) == Open && c in keep)
  {
    seq(Height(g), y requires 0 <= y < Height(g) =>
      seq(Width(g), x requires 0 <= x < Width(g) =>
        if Interior(Cell(x, y), Width(g), Height(g)) && g[y][x] == Open && Cell(x, y) !in keep
        then Wall else g[y][x]))
  }

  /** `keepLargestComponent(grid)`: the grid in which only open cells of the first
      largest interior component stay open (nothing else changes), and that
      component's size. */
  function KeepLargestComponent(g: Grid): (r: (Grid, nat))
    requires IsGrid(g)
    ensures IsGrid(r.0) && Width(r.0) == Width(g) && Height(r.0) == Height(g)
    ensures forall c :: InBox(c, Width(g), Height(g)) && At(r.0, c) != At(g, c) ==>
      Interior(c, Width(g), Height(g)) && At(g, c) == Open && At(r.0, c) == Wall
    ensures exists L :: Kept(g, r.0, r.1, L)
  {
    var L := LargestComponent(g);
    var g2 := Prune(g, L);
    assert Kept(g, g2, |L|, L);
    (g2, |L|)
  }

  /** g2 is g pruned to the first largest component L, and size is its size. */
  ghost predicate Kept(g: Grid, g2: Grid, size: nat, L: set<Cell>)
    requires IsGrid(g) && IsGrid(g2) && Width(g2) == Width(g) && Height(g2) == Height(g)
  {
    && FirstLargest(g, L) && size == |L|
    && forall c :: Interior(c, Width(g), Height(g)) ==> (At(g2, c) == Open <==> At(g, c) == Open && c in L)
  }

  /** Exactly one component remains: after pruning a grid of open and wall cells,
      any two floor cells are joined by a floor walk. */
  lemma OneComponentRemains(g: Grid, g2: Grid, size: nat, L: set<Cell>)
    requires IsGrid(g) && IsGrid(g2) && Width(g2) == Width(g) && Height(g2) == Height(g)
    requires Binary(g) && Kept(g, g2, size, L)
    requires forall c :: InBox(c, Width(g), Height(g)) && At(g2, c) != At(g, c) ==>
      Interior(c, Width(g), Height(g)) && At(g, c) == Open && At(g2, c) == Wall
    ensures forall s, t :: Floor(g2, s) && Floor(g2, t) ==> Connected(g2, s, t)
  {
    forall s, t | Floor(g2, s) && Floor(g2, t)
      ensures Connected(g2, s, t)
    {
      assert At(g, s) == Open && At(g, t) == Open;
      var a :| LargestSeed(g, a) && L == ComponentOf(g, a);
      InComponent(g, a, s);
      InComponent(g, a, t);
      ConnectedSym(g, a, s);
      ConnectedTrans(g, s, a, t);
      var p :| FloorWalk(g, p) && p[0] == s && p[|p| - 1] == t;
      forall i | 0 <= i < |p|
        ensures Floor(g2, p[i])
      {
        WalkPrefix(g, p, i);
        ConnectedTrans(g, a, s, p[i]);
        InComponent(g, a, p[i]);
      }
      assert FloorWalk(g2, p);
    }
  }

  lemma WalkPrefix(g: Grid, p: seq<Cell>, i: int)
    requires IsGrid(g) && FloorWalk(g, p) && 0 <= i < |p|
    ensures Connected(g, p[0], p[i])
  {
    assert FloorWalk(g, p[..i + 1]);
  }
}
