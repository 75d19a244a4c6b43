/** Breadth-first search over a grid (src/pathfinding.js): 4-neighbour moves, cells
    holding 1 are impassable, distances start at -1 ("not reached"). */
module Pathfinding {
  import opened Grids
  import opened Search

  // ---------------------------------------------------------------------------
  // Facts about the search state.

  /** Reached cells have non-negative distances. */
  lemma ReachedNonNegative(g: Grid, src: Cell, dist: seq<seq<int>>, parent: seq<seq<Option<Cell>>>, c: Cell)
    requires BfsTree(g, src, dist, parent)
    requires InBox(c, Width(g), Height(g)) && At(dist, c) != -1
    ensures At(dist, c) >= 0
  {
    if c != src {
      assert At(parent, c) == At(parent, c);
    }
  }

  lemma {:induction false} DistinctAppend<T>(s: seq<T>, x: T)
    requires Distinct(s) && x !in s
    decreases |s|
    ensures Distinct(s + [x])
  {
    if |s| > 0 {
      assert (s + [x])[1..] == s[1..] + [x];
      DistinctAppend(s[1..], x);
    }
  }

  lemma {:induction false} DistinctIndices<T>(s: seq<T>, i: int, j: int)
    requires Distinct(s) && 0 <= i < j < |s|
    decreases |s|
    ensures s[i] != s[j]
  {
    if i > 0 {
      DistinctIndices(s[1..], i - 1, j - 1);
    } else {
      assert s[j] == s[1..][j - 1];
    }
  }

  lemma {:induction false} NonDecreasingAppend(ds: seq<int>, x: int)
    requires NonDecreasing(ds) && (|ds| == 0 || ds[|ds| - 1] <= x)
    decreases |ds|
    ensures NonDecreasing(ds + [x])
  {
    if |ds| > 0 {
      assert (ds + [x])[1..] == ds[1..] + [x];
      NonDecreasingAppend(ds[1..], x);
    }
  }

  lemma {:induction false} NonDecreasingMono(ds: seq<int>, i: int, j: int)
    requires NonDecreasing(ds) && 0 <= i <= j < |ds|
    decreases |ds|
    ensures ds[i] <= ds[j]
  {
    if i < j {
      if i > 0 {
        NonDecreasingMono(ds[1..], i - 1, j - 1);
      } else {
        NonDecreasingMono(ds[1..], 0, j - 1);
      }
    }
  }

  /** Queue order and distance order agree. */
  lemma QueueSorted(g: Grid, dist: seq<seq<int>>, q: seq<Cell>, i: int, j: int)
    requires IsGrid(g) && Shaped(dist, Width(g), Height(g)) && QueueOk(g, dist, q)
    requires 0 <= i <= j < |q|
    ensures At(dist, q[i]) <= At(dist, q[j])
  {
    NonDecreasingMono(QueueDists(dist, q), i, j);
  }

  // ---------------------------------------------------------------------------
  // Counting unreached entries (the termination measure).

  /** Reaching one more cell lowers the count of unreached cells by exactly one. */
  lemma ReachOne(dist: seq<seq<int>>, c: Cell, v: int)
    requires InMatrix(dist, c) && At(dist, c) == -1 && v != -1
    ensures Unreached(Put(dist, c, v)) == Unreached(dist) - 1
  {
    PutCount(dist, c, v, -1);
  }

  // ---------------------------------------------------------------------------
  // The search.

  lemma DoneStable(g: Grid, d: seq<seq<int>>, d': seq<seq<int>>, a: Cell, b: Cell)
    requires IsGrid(g) && Extends(g, d, d') && InBox(a, Width(g), Height(g)) && At(d, a) != -1
    requires Done(g, d, a, b)
    ensures Done(g, d', a, b)
  {
  }

  lemma SettledStable(g: Grid, d: seq<seq<int>>, d': seq<seq<int>>, a: Cell)
    requires IsGrid(g) && Extends(g, d, d') && InBox(a, Width(g), Height(g)) && At(d, a) != -1
    requires Settled(g, d, a)
    ensures Settled(g, d', a)
  {
    DoneStable(g, d, d', a, Neighbour(a, 0));
    DoneStable(g, d, d', a, Neighbour(a, 1));
    DoneStable(g, d, d', a, Neighbour(a, 2));
    DoneStable(g, d, d', a, Neighbour(a, 3));
  }

  /** The state after reaching b from a. */
  function Reach(s: BfsState, a: Cell, b: Cell): BfsState
    requires InMatrix(s.dist, a) && InMatrix(s.dist, b) && InMatrix(s.parent, b)
  {
    BfsState(Put(s.dist, b, At(s.dist, a) + 1), Put(s.parent, b, Some(a)), s.queue + [b], s.head)
  }

  /** Reaching the unreached open neighbour b of a keeps the tree facts. */
  lemma TreeGrows(g: Grid, src: Cell, s: BfsState, a: Cell, b: Cell)
    requires BfsTree(g, src, s.dist, s.parent)
    requires InBox(a, Width(g), Height(g)) && At(s.dist, a) >= 0
    requires InBox(b, Width(g), Height(g)) && Adjacent(a, b) && At(g, b) != Wall && At(s.dist, b) == -1
    ensures BfsTree(g, src, Reach(s, a, b).dist, Reach(s, a, b).parent)
    ensures Extends(g, s.dist, Reach(s, a, b).dist)
  {
    var r := Reach(s, a, b);
    assert b != src;
    forall c | InBox(c, Width(g), Height(g)) && c != src && At(r.dist, c) != -1
      ensures TreeLink(g, r.dist, r.parent, c)
    {
      TreeLinkGrows(g, src, s, a, b, c);
    }
    forall c | InBox(c, Width(g), Height(g)) && At(r.dist, c) == -1
      ensures At(r.parent, c) == None
    {
      assert c != b;
    }
  }

  lemma TreeLinkGrows(g: Grid, src: Cell, s: BfsState, a: Cell, b: Cell, c: Cell)
    requires BfsTree(g, src, s.dist, s.parent)
    requires InBox(a, Width(g), Height(g)) && At(s.dist, a) >= 0
    requires InBox(b, Width(g), Height(g)) && Adjacent(a, b) && At(g, b) != Wall && At(s.dist, b) == -1
    requires InBox(c, Width(g), Height(g)) && c != src && At(Reach(s, a, b).dist, c) != -1
    ensures TreeLink(g, Reach(s, a, b).dist, Reach(s, a, b).parent, c)
  {
    if c != b {
      assert At(s.parent, c) == At(s.parent, c);
      assert TreeLink(g, s.dist, s.parent, c);
      assert At(s.parent, c).value != b;
    }
  }

  /** Appending the newly reached b, one step further than a and so no closer than
      any queued cell, keeps the queue facts. */
  lemma QueueGrows(g: Grid, s: BfsState, a: Cell, b: Cell)
    requires IsGrid(g) && Shaped(s.dist, Width(g), Height(g)) && Shaped(s.parent, Width(g), Height(g))
    requires QueueOk(g, s.dist, s.queue) && |s.queue| > 0
    requires InBox(a, Width(g), Height(g)) && At(s.dist, a) >= 0
    requires InBox(b, Width(g), Height(g)) && At(s.dist, b) == -1
    requires At(s.dist, s.queue[|s.queue| - 1]) <= At(s.dist, a) + 1
    ensures QueueOk(g, Reach(s, a, b).dist, Reach(s, a, b).queue)
  {
    QueueCellsGrow(g, s, a, b);
    QueueOrderGrows(g, s, a, b);
  }

  lemma QueueCellsGrow(g: Grid, s: BfsState, a: Cell, b: Cell)
    requires IsGrid(g) && Shaped(s.dist, Width(g), Height(g)) && Shaped(s.parent, Width(g), Height(g))
    requires QueueOk(g, s.dist, s.queue)
    requires InBox(a, Width(g), Height(g)) && At(s.dist, a) >= 0
    requires InBox(b, Width(g), Height(g))
    ensures forall i :: 0 <= i < |Reach(s, a, b).queue| ==>
      InBox(Reach(s, a, b).queue[i], Width(g), Height(g)) && At(Reach(s, a, b).dist, Reach(s, a, b).queue[i]) != -1
    ensures forall c {:trigger c in Reach(s, a, b).queue} :: InBox(c, Width(g), Height(g)) && At(Reach(s, a, b).dist, c) != -1 ==> c in Reach(s, a, b).queue
  {
  }

  lemma QueueOrderGrows(g: Grid, s: BfsState, a: Cell, b: Cell)
    requires IsGrid(g) && Shaped(s.dist, Width(g), Height(g)) && Shaped(s.parent, Width(g), Height(g))
    requires QueueOk(g, s.dist, s.queue) && |s.queue| > 0
    requires InBox(a, Width(g), Height(g)) && At(s.dist, a) >= 0
    requires InBox(b, Width(g), Height(g)) && At(s.dist, b) == -1
    requires At(s.dist, s.queue[|s.queue| - 1]) <= At(s.dist, a) + 1
    ensures Distinct(Reach(s, a, b).queue)
    ensures NonDecreasing(QueueDists(Reach(s, a, b).dist, Reach(s, a, b).queue))
  {
    var v := At(s.dist, a) + 1;
    assert b !in s.queue;
    DistinctAppend(s.queue, b);
    NonDecreasingAppend(QueueDists(s.dist, s.queue), v);
    assert QueueDists(Reach(s, a, b).dist, Reach(s, a, b).queue) == QueueDists(s.dist, s.queue) + [v];
  }

  lemma SettledPrefixStable(g: Grid, s: BfsState, a: Cell, b: Cell, n: int)
    requires IsGrid(g) && Shaped(s.dist, Width(g), Height(g)) && Shaped(s.parent, Width(g), Height(g))
    requires InMatrix(s.dist, a) && InBox(b, Width(g), Height(g))
    requires Extends(g, s.dist, Reach(s, a, b).dist)
    requires 0 <= n <= |s.queue|
    requires forall i :: 0 <= i < |s.queue| ==> InBox(s.queue[i], Width(g), Height(g)) && At(s.dist, s.queue[i]) != -1
    requires SettledUpTo(g, s.dist, s.queue, n)
    ensures SettledUpTo(g, Reach(s, a, b).dist, Reach(s, a, b).queue, n)
  {
    forall i | 0 <= i < n
      ensures Settled(g, Reach(s, a, b).dist, Reach(s, a, b).queue[i])
    {
      assert Settled(g, s.dist, s.queue[i]);
      SettledStable(g, s.dist, Reach(s, a, b).dist, s.queue[i]);
    }
  }

  /** Every fact of the invariant holds for the state after reaching b. */
  lemma ReachKeepsMidInv(g: Grid, src: Cell, s: BfsState, a: Cell, b: Cell)
    requires MidInv(g, src, s, a)
    requires InBox(b, Width(g), Height(g)) && Adjacent(a, b) && At(g, b) != Wall && At(s.dist, b) == -1
    ensures MidInv(g, src, Reach(s, a, b), a)
    ensures Extends(g, s.dist, Reach(s, a, b).dist)
  {
    assert InBox(a, Width(g), Height(g)) && At(s.dist, a) != -1;
    ReachKeepsTree(g, src, s, a, b);
    ReachKeepsProgress(g, src, s, a, b);
  }

  /** The tree and queue facts after reaching b. */
  lemma ReachKeepsTree(g: Grid, src: Cell, s: BfsState, a: Cell, b: Cell)
    requires BfsTree(g, src, s.dist, s.parent) && QueueOk(g, s.dist, s.queue) && |s.queue| > 0
    requires InBox(a, Width(g), Height(g)) && At(s.dist, a) != -1
    requires At(s.dist, s.queue[|s.queue| - 1]) <= At(s.dist, a) + 1
    requires InBox(b, Width(g), Height(g)) && Adjacent(a, b) && At(g, b) != Wall && At(s.dist, b) == -1
    ensures BfsTree(g, src, Reach(s, a, b).dist, Reach(s, a, b).parent)
    ensures QueueOk(g, Reach(s, a, b).dist, Reach(s, a, b).queue)
    ensures Extends(g, s.dist, Reach(s, a, b).dist)
  {
    ReachedNonNegative(g, src, s.dist, s.parent, a);
    TreeGrows(g, src, s, a, b);
    QueueGrows(g, s, a, b);
  }

  /** The dequeue position, the queue tail, the settled prefix and the count of
      unreached cells after reaching b. */
  lemma ReachKeepsProgress(g: Grid, src: Cell, s: BfsState, a: Cell, b: Cell)
    requires MidInv(g, src, s, a)
    requires InBox(b, Width(g), Height(g)) && At(s.dist, b) == -1
    requires Extends(g, s.dist, Reach(s, a, b).dist)
    ensures 1 <= Reach(s, a, b).head <= |Reach(s, a, b).queue|
    ensures a == Reach(s, a, b).queue[Reach(s, a, b).head - 1]
    ensures At(Reach(s, a, b).dist, Reach(s, a, b).queue[|Reach(s, a, b).queue| - 1]) <= At(Reach(s, a, b).dist, a) + 1
    ensures SettledUpTo(g, Reach(s, a, b).dist, Reach(s, a, b).queue, Reach(s, a, b).head - 1)
    ensures |Reach(s, a, b).queue| + Unreached(Reach(s, a, b).dist) == Width(g) * Height(g)
  {
    var r := Reach(s, a, b);
    ReachedNonNegative(g, src, s.dist, s.parent, a);
    ReachOne(s.dist, b, At(s.dist, a) + 1);
    SettledPrefixStable(g, s, a, b, r.head - 1);
    assert r.queue[r.head - 1] == a && r.queue[|r.queue| - 1] == b;
  }

  /** A reached cell is at most one step further than the cell being processed. */
  lemma ReachedWithinOne(g: Grid, src: Cell, s: BfsState, a: Cell, b: Cell)
    requires MidInv(g, src, s, a)
    requires InBox(b, Width(g), Height(g)) && At(s.dist, b) != -1
    ensures At(s.dist, b) <= At(s.dist, a) + 1
  {
    assert b in s.queue;
    var j :| 0 <= j < |s.queue| && s.queue[j] == b;
    QueueSorted(g, s.dist, s.queue, j, |s.queue| - 1);
  }

  /** One iteration of the inner `for (const [nx, ny] of next)` loop: a neighbour that
      is inside the grid, not a wall and not yet reached gets distance dist[a] + 1,
      parent a, and joins the queue. */
  function Relax(g: Grid, ghost src: Cell, s: BfsState, a: Cell, b: Cell): (r: BfsState)
    requires MidInv(g, src, s, a)
    requires Adjacent(a, b)
    ensures MidInv(g, src, r, a)
    ensures r.head == s.head
    ensures |s.queue| <= |r.queue| && r.queue[..|s.queue|] == s.queue
    ensures Extends(g, s.dist, r.dist)
    ensures Done(g, r.dist, a, b)
  {
    if !InBox(b, Width(g), Height(g)) || At(g, b) == Wall then s
    else if At(s.dist, b) != -1 then
      ReachedWithinOne(g, src, s, a, b);
      s
    else
      ReachKeepsMidInv(g, src, s, a, b);
      assert At(Reach(s, a, b).dist, a) == At(s.dist, a);
      Reach(s, a, b)
  }

  lemma ExtendsTrans(g: Grid, d1: seq<seq<int>>, d2: seq<seq<int>>, d3: seq<seq<int>>)
    requires IsGrid(g) && Extends(g, d1, d2) && Extends(g, d2, d3)
    ensures Extends(g, d1, d3)
  {
  }

  /** All four neighbours of the dequeued cell a, in the order +x, -x, +y, -y. */
  function RelaxAll(g: Grid, ghost src: Cell, s: BfsState, a: Cell): (r: BfsState)
    requires MidInv(g, src, s, a)
    ensures MidInv(g, src, r, a)
    ensures r.head == s.head
    ensures Extends(g, s.dist, r.dist)
    ensures Settled(g, r.dist, a)
  {
    var s1 := Relax(g, src, s, a, Neighbour(a, 0));
    var s2 := Relax(g, src, s1, a, Neighbour(a, 1));
    var s3 := Relax(g, src, s2, a, Neighbour(a, 2));
    var s4 := Relax(g, src, s3, a, Neighbour(a, 3));
    assert InBox(a, Width(g), Height(g)) && At(s.dist, a) != -1;
    ExtendsTrans(g, s2.dist, s3.dist, s4.dist);
    ExtendsTrans(g, s1.dist, s2.dist, s4.dist);
    ExtendsTrans(g, s.dist, s1.dist, s4.dist);
    DoneStable(g, s1.dist, s4.dist, a, Neighbour(a, 0));
    DoneStable(g, s2.dist, s4.dist, a, Neighbour(a, 1));
    DoneStable(g, s3.dist, s4.dist, a, Neighbour(a, 2));
    s4
  }

  lemma Dequeue(g: Grid, src: Cell, s: BfsState)
    requires Inv(g, src, s) && s.head < |s.queue|
    ensures MidInv(g, src, s.(head := s.head + 1), s.queue[s.head])
  {
  }

  lemma Requeue(g: Grid, src: Cell, s: BfsState, a: Cell)
    requires MidInv(g, src, s, a) && Settled(g, s.dist, a)
    ensures Inv(g, src, s)
  {
    assert forall i :: 0 <= i < s.head ==>
      Settled(g, s.dist, s.queue[i]) by {
      forall i | 0 <= i < s.head
        ensures Settled(g, s.dist, s.queue[i])
      {
        if i < s.head - 1 {
          assert Settled(g, s.dist, s.queue[i]);
        }
      }
    }
    if s.head < |s.queue| {
      QueueSorted(g, s.dist, s.queue, s.head - 1, s.head);
    }
  }

  /** One iteration of the outer `while (head < queue.length)` loop. */
  function Step(g: Grid, ghost src: Cell, s: BfsState): (r: BfsState)
    requires Inv(g, src, s) && s.head < |s.queue|
    ensures Inv(g, src, r)
    ensures r.head == s.head + 1
    ensures Extends(g, s.dist, r.dist)
  {
    var a := s.queue[s.head];
    Dequeue(g, src, s);
    var r := RelaxAll(g, src, s.(head := s.head + 1), a);
    Requeue(g, src, r, a);
    r
  }

  /** The whole `while` loop. The count of unreached cells plus the queue length is
      the cell count, so the queue never exceeds width * height entries, each cell
      is enqueued at most once, and the loop ends after at most width * height
      dequeues. */
  function Explore(g: Grid, ghost src: Cell, s: BfsState): (r: BfsState)
    requires Inv(g, src, s)
    decreases Width(g) * Height(g) - s.head
    ensures Inv(g, src, r)
    ensures r.head == |r.queue| <= Width(g) * Height(g)
    ensures Distinct(r.queue)
    ensures forall c :: InBox(c, Width(g), Height(g)) ==> (c in r.queue <==> At(r.dist, c) != -1)
  {
    if s.head >= |s.queue| then s
    else Explore(g, src, Step(g, src, s))
  }

  /** Before the loop: only the source is reached, at distance 0 and without a
      parent, and it is the whole queue. */
  function Init(g: Grid, src: Cell): BfsState
    requires IsGrid(g) && InBox(src, Width(g), Height(g))
  {
    BfsState(Put(Fill(Width(g), Height(g), -1), src, 0), Fill(Width(g), Height(g), None), [src], 0)
  }

  lemma InitInv(g: Grid, src: Cell)
    requires IsGrid(g) && InBox(src, Width(g), Height(g))
    ensures Inv(g, src, Init(g, src))
  {
    var s := Init(g, src);
    CountFill(Width(g), Height(g), -1);
    ReachOne(Fill(Width(g), Height(g), -1), src, 0);
    assert BfsTree(g, src, s.dist, s.parent);
    assert QueueDists(s.dist, s.queue) == [0];
    assert QueueOk(g, s.dist, s.queue);
  }

  /** `bfs(grid, start)`. */
  function Bfs(g: Grid, src: Cell): (r: BfsResult)
    requires IsGrid(g) && InBox(src, Width(g), Height(g))
    ensures Shaped(r.dist, Width(g), Height(g)) && Shaped(r.parent, Width(g), Height(g))
    ensures BfsTree(g, src, r.dist, r.parent)
    ensures AllSettled(g, r.dist)
  {
    var w := Width(g);
    var h := Height(g);
    InitInv(g, src);
    var s := Explore(g, src, Init(g, src));
    assert AllSettled(g, s.dist) by {
      forall c | InBox(c, w, h) && At(s.dist, c) != -1
        ensures Settled(g, s.dist, c)
      {
        assert c in s.queue;
        var i :| 0 <= i < |s.queue| && s.queue[i] == c;
      }
    }
    BfsResult(s.dist, s.parent)
  }

  // ---------------------------------------------------------------------------
  // What the search computes.

  /** Every walk from the source ends at a reached cell, no further away than the
      walk is long. */
  lemma {:induction false} WalksAreReached(g: Grid, src: Cell, dist: seq<seq<int>>, parent: seq<seq<Option<Cell>>>, p: seq<Cell>)
    requires BfsTree(g, src, dist, parent)
    requires AllSettled(g, dist)
    requires |p| > 0 && WalkFromTo(g, p, src, p[|p| - 1])
    decreases |p|
    ensures At(dist, p[|p| - 1]) != -1
    ensures At(dist, p[|p| - 1]) <= |p| - 1
  {
    if |p| > 1 {
      var q := p[..|p| - 1];
      assert WalkFromTo(g, q, src, q[|q| - 1]);
      WalksAreReached(g, src, dist, parent, q);
      var a := q[|q| - 1];
      var b := p[|p| - 1];
      assert Adjacent(a, b);
      AdjacentIsNeighbour(a, b);
      var k :| 0 <= k < 4 && Neighbour(a, k) == b;
      assert Settled(g, dist, a);
      assert Done(g, dist, a, b);
    }
  }

  /** `reconstructPath(parent, start, goal)`: follow parent links from the goal back to
      the start (or to a cell without parent) and list the cells from the far end.
      The distances are a ghost argument that only shows the walk terminates. */
  function ReconstructPath(parent: seq<seq<Option<Cell>>>, start: Cell, goal: Cell,
                           ghost g: Grid, ghost dist: seq<seq<int>>): (path: seq<Cell>)
    requires BfsTree(g, start, dist, parent)
    requires InBox(goal, Width(g), Height(g))
    decreases At(dist, goal) + 1
    ensures |path| > 0 && path[|path| - 1] == goal
    ensures At(dist, goal) != -1 ==> WalkFromTo(g, path, start, goal) && |path| == At(dist, goal) + 1
    ensures At(dist, goal) == -1 && goal != start ==> path == [goal]
  {
    if goal == start then [goal]
    else
      match At(parent, goal)
      case None => [goal]
      case Some(p) =>
        var prefix := ReconstructPath(parent, start, p, g, dist);
        var path := prefix + [goal];
        assert forall i :: 0 <= i < |prefix| ==> path[i] == prefix[i];
        path
  }

  /** The distances are exact: -1 exactly for the cells no walk reaches, otherwise the
      length of a shortest walk from the source. */
  lemma BfsCorrect(g: Grid, src: Cell, c: Cell)
    requires IsGrid(g) && InBox(src, Width(g), Height(g)) && InBox(c, Width(g), Height(g))
    ensures At(Bfs(g, src).dist, c) == -1 <==> !Reachable(g, src, c)
    ensures At(Bfs(g, src).dist, c) != -1 ==> IsDistance(g, src, c, At(Bfs(g, src).dist, c))
  {
    DistanceAt(g, src, Bfs(g, src).dist, Bfs(g, src).parent, c);
  }

  lemma DistanceAt(g: Grid, src: Cell, dist: seq<seq<int>>, parent: seq<seq<Option<Cell>>>, c: Cell)
    requires BfsTree(g, src, dist, parent) && AllSettled(g, dist)
    requires InBox(c, Width(g), Height(g))
    ensures At(dist, c) == -1 <==> !Reachable(g, src, c)
    ensures At(dist, c) != -1 ==> IsDistance(g, src, c, At(dist, c))
  {
    if At(dist, c) != -1 {
      var path := ReconstructPath(parent, src, c, g, dist);
      assert WalkFromTo(g, path, src, c);
      forall p | WalkFromTo(g, p, src, c)
        ensures At(dist, c) + 1 <= |p|
      {
        WalksAreReached(g, src, dist, parent, p);
      }
    } else if Reachable(g, src, c) {
      var p :| WalkFromTo(g, p, src, c);
      WalksAreReached(g, src, dist, parent, p);
    }
  }

  /** `bfsPathLength(grid, start, goal)`: the BFS distance of the goal, -1 exactly when
      no walk reaches it, otherwise the length of a shortest walk. */
  function BfsPathLength(g: Grid, start: Cell, goal: Cell): (r: int)
    requires IsGrid(g)
    requires InBox(start, Width(g), Height(g)) && InBox(goal, Width(g), Height(g))
    ensures r == -1 <==> !Reachable(g, start, goal)
    ensures r != -1 ==> IsDistance(g, start, goal, r)
  {
    BfsCorrect(g, start, goal);
    At(Bfs(g, start).dist, goal)
  }

  // ---------------------------------------------------------------------------
  // Farthest cell.

  /** The row-major scan of `farthestCell`: keep the first cell whose value is
      strictly greater than everything before it. */
  function MaxScan(dist: seq<seq<int>>, cells: seq<Cell>, best: int, cell: Cell): (r: (Cell, int))
    requires forall c :: c in cells ==> InMatrix(dist, c)
    requires RowMajorSorted(cells)
    decreases |cells|
    ensures r.1 >= best
    ensures forall c :: c in cells ==> At(dist, c) <= r.1
    ensures r.1 == best ==> r.0 == cell
    ensures r.1 > best ==> r.0 in cells && At(dist, r.0) == r.1
    ensures r.1 > best ==> forall c :: c in cells && Before(c, r.0) ==> At(dist, c) < r.1
  {
    if |cells| == 0 then (cell, best)
    else
      var d := At(dist, cells[0]);
      assert forall c :: c in cells[1..] ==> c in cells;
      assert forall c :: c in cells[1..] ==> Before(cells[0], c) by {
        forall c | c in cells[1..] ensures Before(cells[0], c) {
          var j :| 0 <= j < |cells[1..]| && cells[1..][j] == c;
          assert cells[j + 1] == c;
        }
      }
      if d > best then MaxScan(dist, cells[1..], d, cells[0])
      else MaxScan(dist, cells[1..], best, cell)
  }

  /** `farthestCell(dist)`: the largest entry (at least -1) and the first cell in
      row-major order holding it; ([0, 0], -1) when no entry exceeds -1. */
  function FarthestCell(dist: seq<seq<int>>): (r: (Cell, int))
    requires |dist| > 0 && Shaped(dist, Width(dist), Height(dist))
    ensures r.1 >= -1
    ensures forall c :: InBox(c, Width(dist), Height(dist)) ==> At(dist, c) <= r.1
    ensures r.1 == -1 ==> r.0 == Cell(0, 0)
    ensures r.1 > -1 ==> InBox(r.0, Width(dist), Height(dist)) && At(dist, r.0) == r.1
    ensures r.1 > -1 ==> forall c :: InBox(c, Width(dist), Height(dist)) && Before(c, r.0) ==> At(dist, c) < r.1
  {
    MaxScan(dist, AllCells(dist), -1, Cell(0, 0))
  }
}
