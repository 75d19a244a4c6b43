/** The state of the breadth-first search of src/pathfinding.js and the facts its
    proofs are phrased in: walks through a grid (the reference notion of
    reachability and distance), the shortest-path tree and the queue invariant. */
module Search {
  import opened Grids

  datatype BfsResult = BfsResult(dist: seq<seq<int>>, parent: seq<seq<Option<Cell>>>)

  /** The loop state of `bfs`: the two matrices, the queue array and its read index. */
  datatype BfsState = BfsState(dist: seq<seq<int>>, parent: seq<seq<Option<Cell>>>, queue: seq<Cell>, head: nat)

  /** A walk that starts anywhere in the grid and then steps to adjacent non-wall
      cells. Only the first cell may be a wall: the search starts from its source
      whatever that cell holds. */
  ghost predicate IsWalk(g: Grid, p: seq<Cell>)
    requires IsGrid(g)
  {
    && |p| > 0
    && (forall i :: 0 <= i < |p| ==> InBox(p[i], Width(g), Height(g)))
    && (forall i :: 1 <= i < |p| ==> At(g, p[i]) != Wall && Adjacent(p[i - 1], p[i]))
  }

  ghost predicate WalkFromTo(g: Grid, p: seq<Cell>, s: Cell, t: Cell)
    requires IsGrid(g)
  {
    IsWalk(g, p) && p[0] == s && p[|p| - 1] == t
  }

  ghost predicate Reachable(g: Grid, s: Cell, t: Cell)
    requires IsGrid(g)
  {
    exists p :: WalkFromTo(g, p, s, t)
  }

  /** n is the number of steps of a shortest walk from s to t. */
  ghost predicate IsDistance(g: Grid, s: Cell, t: Cell, n: int)
    requires IsGrid(g)
  {
    && (exists p :: WalkFromTo(g, p, s, t) && |p| == n + 1)
    && (forall p :: WalkFromTo(g, p, s, t) ==> n + 1 <= |p|)
  }

  /** e is a cell at the greatest distance d from s, and the first such cell in
      row-major order. */
  ghost predicate Farthest(g: Grid, s: Cell, e: Cell, d: int)
    requires IsGrid(g)
  {
    && InBox(e, Width(g), Height(g)) && d >= 0 && IsDistance(g, s, e, d)
    && (forall c, n :: InBox(c, Width(g), Height(g)) && IsDistance(g, s, c, n) ==> n <= d)
    && (forall c, n :: InBox(c, Width(g), Height(g)) && IsDistance(g, s, c, n) && Before(c, e) ==> n < d)
  }

  ghost predicate Shapes(g: Grid, dist: seq<seq<int>>, parent: seq<seq<Option<Cell>>>) {
    IsGrid(g) && Shaped(dist, Width(g), Height(g)) && Shaped(parent, Width(g), Height(g))
  }

  /** Neighbour b of the processed cell a has been dealt with: it is outside the
      grid, a wall, or reached at most one step further than a. */
  ghost predicate Done(g: Grid, dist: seq<seq<int>>, a: Cell, b: Cell)
    requires IsGrid(g) && Shaped(dist, Width(g), Height(g)) && InBox(a, Width(g), Height(g))
  {
    || !InBox(b, Width(g), Height(g))
    || At(g, b) == Wall
    || (At(dist, b) != -1 && At(dist, b) <= At(dist, a) + 1)
  }

  /** All four neighbours of a are dealt with. */
  ghost predicate Settled(g: Grid, dist: seq<seq<int>>, a: Cell)
    requires IsGrid(g) && Shaped(dist, Width(g), Height(g)) && InBox(a, Width(g), Height(g))
  {
    && Done(g, dist, a, Neighbour(a, 0))
    && Done(g, dist, a, Neighbour(a, 1))
    && Done(g, dist, a, Neighbour(a, 2))
    && Done(g, dist, a, Neighbour(a, 3))
  }

  /** A reached cell other than the source: open, with a reached 4-neighbour parent
      one step closer. */
  ghost predicate TreeLink(g: Grid, dist: seq<seq<int>>, parent: seq<seq<Option<Cell>>>, c: Cell)
    requires Shapes(g, dist, parent) && InBox(c, Width(g), Height(g))
  {
    && At(g, c) != Wall
    && At(parent, c).Some?
    && var p := At(parent, c).value;
    && InBox(p, Width(g), Height(g))
    && Adjacent(p, c)
    && At(dist, p) >= 0
    && At(dist, c) == At(dist, p) + 1
  }

  /** The shortest-path tree facts that hold throughout the search. */
  ghost predicate BfsTree(g: Grid, src: Cell, dist: seq<seq<int>>, parent: seq<seq<Option<Cell>>>) {
    && Shapes(g, dist, parent)
    && InBox(src, Width(g), Height(g))
    && At(dist, src) == 0
    && At(parent, src) == None
    && (forall c {:trigger At(parent, c)} :: InBox(c, Width(g), Height(g)) && c != src && At(dist, c) != -1 ==>
          TreeLink(g, dist, parent, c))
    && (forall c :: InBox(c, Width(g), Height(g)) && At(dist, c) == -1 ==> At(parent, c) == None)
  }

  /** Entries already reached in d keep their value in d'. */
  ghost predicate Extends(g: Grid, d: seq<seq<int>>, d': seq<seq<int>>)
    requires IsGrid(g)
  {
    && Shaped(d, Width(g), Height(g))
    && Shaped(d', Width(g), Height(g))
    && forall c :: InBox(c, Width(g), Height(g)) && At(d, c) != -1 ==> At(d', c) == At(d, c)
  }

  /** No element occurs twice. */
  predicate Distinct<T(==)>(s: seq<T>) {
    |s| == 0 || (s[0] !in s[1..] && Distinct(s[1..]))
  }

  /** Each entry is at most the next one. */
  predicate NonDecreasing(ds: seq<int>) {
    |ds| < 2 || (ds[0] <= ds[1] && NonDecreasing(ds[1..]))
  }

  /** The distances of the queued cells, in queue order. */
  function QueueDists(dist: seq<seq<int>>, q: seq<Cell>): (r: seq<int>)
    requires forall i :: 0 <= i < |q| ==> InMatrix(dist, q[i])
    ensures |r| == |q|
    ensures forall i :: 0 <= i < |q| ==> r[i] == At(dist, q[i])
  {
    if |q| == 0 then [] else [At(dist, q[0])] + QueueDists(dist, q[1..])
  }

  /** The queue holds exactly the reached cells, each once, in order of distance. */
  ghost predicate QueueOk(g: Grid, dist: seq<seq<int>>, q: seq<Cell>)
    requires IsGrid(g) && Shaped(dist, Width(g), Height(g))
  {
    && (forall i :: 0 <= i < |q| ==> InBox(q[i], Width(g), Height(g)) && At(dist, q[i]) != -1)
    && (forall c {:trigger c in q} :: InBox(c, Width(g), Height(g)) && At(dist, c) != -1 ==> c in q)
    && Distinct(q)
    && NonDecreasing(QueueDists(dist, q))
  }

  /** The first n queued cells are settled. */
  ghost predicate SettledUpTo(g: Grid, dist: seq<seq<int>>, q: seq<Cell>, n: int)
    requires IsGrid(g) && Shaped(dist, Width(g), Height(g))
    requires forall i :: 0 <= i < |q| ==> InBox(q[i], Width(g), Height(g))
  {
    forall i {:trigger Settled(g, dist, q[i])} :: 0 <= i < n && i < |q| ==> Settled(g, dist, q[i])
  }

  /** Every reached cell is settled: the search has nothing left to do. */
  ghost predicate AllSettled(g: Grid, dist: seq<seq<int>>)
    requires IsGrid(g) && Shaped(dist, Width(g), Height(g))
  {
    forall c {:trigger Settled(g, dist, c)} :: InBox(c, Width(g), Height(g)) && At(dist, c) != -1 ==> Settled(g, dist, c)
  }

  /** The loop invariant of `bfs`, between two dequeues. */
  ghost predicate Inv(g: Grid, src: Cell, s: BfsState) {
    && BfsTree(g, src, s.dist, s.parent)
    && QueueOk(g, s.dist, s.queue)
    && 0 < |s.queue|
    && s.head <= |s.queue|
    && (s.head < |s.queue| ==> At(s.dist, s.queue[|s.queue| - 1]) <= At(s.dist, s.queue[s.head]) + 1)
    && SettledUpTo(g, s.dist, s.queue, s.head)
    && |s.queue| + Unreached(s.dist) == Width(g) * Height(g)
  }

  /** The invariant while the neighbours of a, the cell just dequeued, are examined. */
  ghost predicate MidInv(g: Grid, src: Cell, s: BfsState, a: Cell) {
    && BfsTree(g, src, s.dist, s.parent)
    && QueueOk(g, s.dist, s.queue)
    && 1 <= s.head <= |s.queue|
    && a == s.queue[s.head - 1]
    && At(s.dist, s.queue[|s.queue| - 1]) <= At(s.dist, a) + 1
    && SettledUpTo(g, s.dist, s.queue, s.head - 1)
    && |s.queue| + Unreached(s.dist) == Width(g) * Height(g)
  }

  function Unreached(dist: seq<seq<int>>): nat {
    CountMatrix(dist, -1)
  }
}
