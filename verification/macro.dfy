/** The macro maze of src/maze/variant2_hierarchical.js: `createMacroGraph(9, 5, rng)`,
    a randomized depth-first traversal of the 9-by-5 grid of blocks that records
    the edges it walks along. The adjacency of each block is the insertion-ordered
    contents of a JS `Set`, kept here as a sequence because its order decides the
    order of later draws. */
module Macro {
  import opened Grids
  import opened Prng

  const MacroW: int := 9
  const MacroH: int := 5
  /** The number of blocks. */
  const Total: int := 45

  /** Block v sits at column v % 9 and row v / 9 of the block grid. */
  function Pos(v: int): Cell {
    Cell(v % MacroW, v / MacroW)
  }

  /** The numbers 0 .. n - 1. */
  function Range(n: nat): (r: set<int>)
    ensures forall v :: v in r <==> 0 <= v < n
    ensures |r| == n
  {
    if n == 0 then {} else Range(n - 1) + {n - 1}
  }

  /** A set of numbers below n has at most n members, and exactly n when it holds
      them all. */
  lemma {:induction false} BoundedSize(visited: set<int>, n: nat)
    requires forall v :: v in visited ==> 0 <= v < n
    decreases n
    ensures |visited| <= n
    ensures (forall v :: 0 <= v < n ==> v in visited) ==> |visited| == n
  {
    if n == 0 {
      assert forall v :: v !in visited;
      assert visited == {};
    } else {
      var rest := visited - {n - 1};
      BoundedSize(rest, n - 1);
      if n - 1 in visited {
        assert visited == rest + {n - 1};
      } else {
        assert visited == rest;
      }
    }
  }

  /** The neighbours of block v in the order the source pushes them: left, right,
      up, down. */
  function Neighbours(v: int): (r: seq<int>)
    requires 0 <= v < Total
    ensures forall n :: n in r ==> 0 <= n < Total
  {
    (if v % MacroW > 0 then [v - 1] else []) +
    (if v % MacroW < MacroW - 1 then [v + 1] else []) +
    (if v / MacroW > 0 then [v - MacroW] else []) +
    (if v / MacroW < MacroH - 1 then [v + MacroW] else [])
  }

  /** The neighbours are exactly the blocks one step left, right, up or down. */
  lemma NeighboursAdjacent(v: int, n: int)
    requires 0 <= v < Total
    ensures n in Neighbours(v) <==> 0 <= n < Total && Adjacent(Pos(v), Pos(n))
  {
  }

  lemma NeighbourSym(a: int, b: int)
    requires 0 <= a < Total && b in Neighbours(a)
    ensures a in Neighbours(b)
  {
    NeighboursAdjacent(a, b);
    NeighboursAdjacent(b, a);
  }

  /** `set.add(x)` on an insertion-ordered set. */
  function SetAdd(s: seq<int>, x: int): (r: seq<int>)
    ensures forall y :: y in r <==> y in s || y == x
  {
    if x in s then s else s + [x]
  }

  // ---------------------------------------------------------------------------
  // Counting edges.

  /** `edges.reduce((sum, e) => sum + e.size, 0)`: every edge is counted at both ends. */
  function DegreeSum(edges: seq<seq<int>>): nat {
    if |edges| == 0 then 0 else |edges[0]| + DegreeSum(edges[1..])
  }

  /** The entries of s that are at least i, in order. */
  function Upper(s: seq<int>, i: int): (r: seq<int>)
    ensures forall n :: n in r <==> n in s && n >= i
  {
    if |s| == 0 then [] else (if s[0] >= i then [s[0]] else []) + Upper(s[1..], i)
  }

  /** The number of (idx, n) pairs with n in edges[idx] and n >= idx, over idx >= k:
      the edges the door loop of `generateHierarchical` handles. */
  function UpperFrom(edges: seq<seq<int>>, k: nat): nat
    decreases |edges| - k
  {
    if k >= |edges| then 0 else |Upper(edges[k], k)| + UpperFrom(edges, k + 1)
  }

  lemma {:induction false} DegreeSumUpdate(edges: seq<seq<int>>, i: int, x: seq<int>)
    requires 0 <= i < |edges|
    decreases |edges|
    ensures DegreeSum(edges[i := x]) == DegreeSum(edges) - |edges[i]| + |x|
  {
    if i > 0 {
      assert edges[i := x][1..] == edges[1..][i - 1 := x];
      DegreeSumUpdate(edges[1..], i - 1, x);
    } else {
      assert edges[i := x][1..] == edges[1..];
    }
  }

  lemma {:induction false} UpperFromUpdate(edges: seq<seq<int>>, i: int, x: seq<int>, k: nat)
    requires 0 <= i < |edges|
    decreases |edges| - k
    ensures UpperFrom(edges[i := x], k) + (if k <= i then |Upper(edges[i], i)| else 0) ==
            UpperFrom(edges, k) + (if k <= i then |Upper(x, i)| else 0)
  {
    if k < |edges| {
      UpperFromUpdate(edges, i, x, k + 1);
    }
  }

  lemma {:induction false} UpperAppend(s: seq<int>, n: int, i: int)
    decreases |s|
    ensures Upper(s + [n], i) == Upper(s, i) + (if n >= i then [n] else [])
  {
    if |s| > 0 {
      assert (s + [n])[1..] == s[1..] + [n];
      UpperAppend(s[1..], n, i);
    }
  }

  // ---------------------------------------------------------------------------
  // Walks along macro edges.

  /** p follows edges: each next vertex is in the adjacency of the previous one. */
  ghost predicate IsPath(edges: seq<seq<int>>, p: seq<int>) {
    && |p| >= 1
    && (forall i :: 0 <= i < |p| ==> 0 <= p[i] < |edges|)
    && (forall i :: 0 <= i < |p| - 1 ==> p[i + 1] in edges[p[i]])
  }

  /** v can be reached from block 0 along edges. */
  ghost predicate Linked(edges: seq<seq<int>>, v: int) {
    exists p :: IsPath(edges, p) && p[0] == 0 && p[|p| - 1] == v
  }

  /** Adding edges keeps every walk. */
  lemma LinkedGrows(edges: seq<seq<int>>, edges': seq<seq<int>>, v: int)
    requires |edges'| == |edges|
    requires forall a, b :: 0 <= a < |edges| && b in edges[a] ==> b in edges'[a]
    requires Linked(edges, v)
    ensures Linked(edges', v)
  {
    var p :| IsPath(edges, p) && p[0] == 0 && p[|p| - 1] == v;
    assert IsPath(edges', p) by {
      forall i | 0 <= i < |p| - 1
        ensures p[i + 1] in edges'[p[i]]
      {
        assert p[i + 1] in edges[p[i]];
      }
    }
  }

  lemma LinkedStep(edges: seq<seq<int>>, a: int, b: int)
    requires Linked(edges, a) && 0 <= b < |edges| && b in edges[a]
    ensures Linked(edges, b)
  {
    var p :| IsPath(edges, p) && p[0] == 0 && p[|p| - 1] == a;
    var q := p + [b];
    assert IsPath(edges, q) by {
      forall i | 0 <= i < |q| - 1
        ensures q[i + 1] in edges[q[i]]
      {
        if i < |p| - 1 {
          assert q[i + 1] == p[i + 1] && q[i] == p[i];
        }
      }
    }
    assert q[0] == 0 && q[|q| - 1] == b;
  }

  // ---------------------------------------------------------------------------
  // The traversal.

  datatype Dfs = Dfs(edges: seq<seq<int>>, visited: set<int>, stack: seq<int>, rng: Rng)

  /** The stack holds visited blocks, each once, and block 0 is visited. */
  ghost predicate StackOk(s: Dfs) {
    && |s.edges| == Total
    && (forall v :: v in s.visited ==> 0 <= v < Total)
    && |s.visited| <= Total
    && 0 in s.visited
    && (forall i :: 0 <= i < |s.stack| ==> s.stack[i] in s.visited)
    && (forall i, j :: 0 <= i < j < |s.stack| ==> s.stack[i] != s.stack[j])
  }

  /** A visited block that has left the stack has no unvisited neighbour. */
  ghost predicate Closed(s: Dfs) {
    forall v :: v in s.visited && v !in s.stack ==> 0 <= v < Total && forall n :: n in Neighbours(v) ==> n in s.visited
  }

  /** The edges join adjacent visited blocks, symmetrically, and an unvisited block
      has none. */
  ghost predicate EdgesOk(edges: seq<seq<int>>, visited: set<int>)
    requires |edges| == Total
  {
    && (forall a, b {:trigger b in edges[a]} :: 0 <= a < Total && b in edges[a] ==>
          0 <= b < Total && a in visited && b in visited && a in edges[b] && b in Neighbours(a))
    && (forall a :: 0 <= a < Total && a !in visited ==> edges[a] == [])
  }

  /** One edge per visited block but the first, counted at both ends and once from
      the lower end; every visited block is reached from block 0 along edges. */
  ghost predicate TreeSoFar(edges: seq<seq<int>>, visited: set<int>) {
    && |visited| >= 1
    && DegreeSum(edges) == 2 * (|visited| - 1)
    && UpperFrom(edges, 0) == |visited| - 1
    && (forall v :: v in visited ==> Linked(edges, v))
  }

  ghost predicate Inv(s: Dfs) {
    StackOk(s) && Closed(s) && EdgesOk(s.edges, s.visited) && TreeSoFar(s.edges, s.visited)
  }

  /** The last block on the stack has no unvisited neighbour: pop it. */
  function Pop(s: Dfs): (r: Dfs)
    requires Inv(s) && |s.stack| > 0
    requires |Unvisited(Neighbours(s.stack[|s.stack| - 1]), s.visited)| == 0
    ensures Inv(r) && r.visited == s.visited && |r.stack| < |s.stack|
  {
    var cur := s.stack[|s.stack| - 1];
    var r := s.(stack := s.stack[..|s.stack| - 1]);
    var un := Unvisited(Neighbours(cur), s.visited);
    assert un == [];
    PopKeeps(s, r);
    r
  }

  /** Popping a block with no unvisited neighbour keeps the stack facts. */
  lemma PopKeeps(s: Dfs, r: Dfs)
    requires StackOk(s) && Closed(s) && |s.stack| > 0
    requires var cur := s.stack[|s.stack| - 1];
      forall n :: n in Neighbours(cur) ==> n in s.visited
    requires r == s.(stack := s.stack[..|s.stack| - 1])
    ensures StackOk(r) && Closed(r)
  {
    var cur := s.stack[|s.stack| - 1];
    assert s.stack == r.stack + [cur];
    forall i | 0 <= i < |r.stack| ensures r.stack[i] in r.visited {
      assert r.stack[i] == s.stack[i];
    }
    forall i, j | 0 <= i < j < |r.stack| ensures r.stack[i] != r.stack[j] {
      assert r.stack[i] == s.stack[i] && r.stack[j] == s.stack[j];
    }
    forall v | v in r.visited && v !in r.stack
      ensures 0 <= v < Total && forall n :: n in Neighbours(v) ==> n in r.visited
    {
      if v != cur {
        assert v !in s.stack;
      }
    }
  }

  /** `edges[current].add(next); edges[next].add(current)`. */
  function AddEdge(edges: seq<seq<int>>, cur: int, next: int): (r: seq<seq<int>>)
    requires 0 <= cur < |edges| && 0 <= next < |edges|
    ensures |r| == |edges|
  {
    var e1 := edges[cur := SetAdd(edges[cur], next)];
    e1[next := SetAdd(e1[next], cur)]
  }

  /** Linking a visited block to an unvisited one appends at both ends. */
  lemma AddEdgeAppends(edges: seq<seq<int>>, visited: set<int>, cur: int, next: int)
    requires |edges| == Total && EdgesOk(edges, visited)
    requires 0 <= cur < Total && cur in visited && 0 <= next < Total && next !in visited
    ensures AddEdge(edges, cur, next) == edges[cur := edges[cur] + [next]][next := [cur]]
  {
    assert next !in edges[cur];
    assert SetAdd(edges[cur], next) == edges[cur] + [next];
    var e1 := edges[cur := edges[cur] + [next]];
    assert e1[next] == [];
    assert SetAdd(e1[next], cur) == [cur];
  }

  /** The edge facts after linking cur to the unvisited neighbour next. */
  lemma AdvanceEdgesOk(edges: seq<seq<int>>, visited: set<int>, cur: int, next: int)
    requires |edges| == Total && EdgesOk(edges, visited)
    requires 0 <= cur < Total && cur in visited && next in Neighbours(cur) && next !in visited
    ensures EdgesOk(AddEdge(edges, cur, next), visited + {next})
  {
    AddEdgeAppends(edges, visited, cur, next);
    var e2 := edges[cur := edges[cur] + [next]][next := [cur]];
    NeighbourSym(cur, next);
    forall a, b | 0 <= a < Total && b in e2[a]
      ensures 0 <= b < Total && a in visited + {next} && b in visited + {next} && a in e2[b] && b in Neighbours(a)
    {
      LinkedEdge(edges, visited, cur, next, e2, a, b);
    }
  }

  /** One edge of the linked table: it is either the new edge, read from either
      end, or an old one, whose ends keep their lists or gain only next. */
  lemma LinkedEdge(edges: seq<seq<int>>, visited: set<int>, cur: int, next: int, e2: seq<seq<int>>, a: int, b: int)
    requires |edges| == Total && EdgesOk(edges, visited)
    requires 0 <= cur < Total && cur in visited && next in Neighbours(cur) && cur in Neighbours(next)
    requires next !in visited
    requires e2 == edges[cur := edges[cur] + [next]][next := [cur]]
    requires 0 <= a < Total && b in e2[a]
    ensures 0 <= b < Total && a in visited + {next} && b in visited + {next} && a in e2[b] && b in Neighbours(a)
  {
    if a == next {
      assert e2[a] == [cur] && b == cur;
      assert e2[b] == edges[cur] + [next];
    } else if a == cur {
      assert e2[a] == edges[cur] + [next];
      if b != next {
        EdgeFacts(edges, visited, a, b);
        assert e2[b] == edges[b];
      }
    } else {
      assert e2[a] == edges[a];
      EdgeFacts(edges, visited, a, b);
      if b != cur {
        assert e2[b] == edges[b];
      } else {
        assert e2[b] == edges[cur] + [next];
      }
    }
  }

  /** One instance of the edge facts. */
  lemma EdgeFacts(edges: seq<seq<int>>, visited: set<int>, a: int, b: int)
    requires |edges| == Total && EdgesOk(edges, visited)
    requires 0 <= a < Total && b in edges[a]
    ensures 0 <= b < Total && a in visited && b in visited && a in edges[b] && b in Neighbours(a)
  {
  }

  /** The counts after linking cur to the unvisited neighbour next. */
  lemma AdvanceCounts(edges: seq<seq<int>>, visited: set<int>, cur: int, next: int)
    requires |edges| == Total && EdgesOk(edges, visited) && DegreeSum(edges) == 2 * (|visited| - 1)
    requires UpperFrom(edges, 0) == |visited| - 1
    requires 0 <= cur < Total && cur in visited && 0 <= next < Total && next !in visited
    ensures DegreeSum(AddEdge(edges, cur, next)) == 2 * (|visited + {next}| - 1)
    ensures UpperFrom(AddEdge(edges, cur, next), 0) == |visited + {next}| - 1
  {
    AddEdgeAppends(edges, visited, cur, next);
    var e1 := edges[cur := edges[cur] + [next]];
    assert e1[next] == [];
    DegreeSumUpdate(edges, cur, edges[cur] + [next]);
    DegreeSumUpdate(e1, next, [cur]);
    UpperAppend(edges[cur], next, cur);
    UpperFromUpdate(edges, cur, edges[cur] + [next], 0);
    assert Upper([cur], next) == (if cur >= next then [cur] else []);
    assert Upper([], next) == [];
    UpperFromUpdate(e1, next, [cur], 0);
    assert |visited + {next}| == |visited| + 1;
  }

  /** Every visited block stays linked to block 0, and so does next. */
  lemma AdvanceLinked(edges: seq<seq<int>>, visited: set<int>, cur: int, next: int)
    requires |edges| == Total && EdgesOk(edges, visited)
    requires forall v :: v in visited ==> Linked(edges, v)
    requires 0 <= cur < Total && cur in visited && 0 <= next < Total && next !in visited
    ensures forall v :: v in visited + {next} ==> Linked(AddEdge(edges, cur, next), v)
  {
    AddEdgeAppends(edges, visited, cur, next);
    var e2 := AddEdge(edges, cur, next);
    assert forall a, b :: 0 <= a < |edges| && b in edges[a] ==> b in e2[a];
    forall v | v in visited + {next}
      ensures Linked(e2, v)
    {
      if v in visited {
        LinkedGrows(edges, e2, v);
      } else {
        LinkedGrows(edges, e2, cur);
        LinkedStep(e2, cur, next);
      }
    }
  }

  /** The stack facts after pushing the unvisited neighbour next. */
  lemma AdvanceStack(s: Dfs, next: int, r: Dfs)
    requires StackOk(s) && Closed(s) && |s.stack| > 0
    requires 0 <= next < Total && next !in s.visited
    requires r.visited == s.visited + {next} && r.stack == s.stack + [next] && |r.edges| == Total
    ensures StackOk(r) && Closed(r)
  {
    forall i, j | 0 <= i < j < |r.stack| ensures r.stack[i] != r.stack[j] {
      if j == |s.stack| {
        assert r.stack[i] == s.stack[i] && s.stack[i] in s.visited;
      } else {
        assert r.stack[i] == s.stack[i] && r.stack[j] == s.stack[j];
      }
    }
    forall v | v in r.visited && v !in r.stack
      ensures 0 <= v < Total && forall n :: n in Neighbours(v) ==> n in r.visited
    {
      assert v != next && v in s.visited && v !in s.stack;
    }
    BoundedSize(r.visited, Total);
  }

  /** The last block on the stack has unvisited neighbours: draw one, link it and
      push it. */
  function Advance(s: Dfs, un: seq<int>): (r: Dfs)
    requires Inv(s) && |s.stack| > 0
    requires un == Unvisited(Neighbours(s.stack[|s.stack| - 1]), s.visited) && |un| > 0
    ensures Inv(r) && |r.visited| == |s.visited| + 1
  {
    var cur := s.stack[|s.stack| - 1];
    var (i, rng') := IntBetween(s.rng, 0, |un| - 1);
    var next := un[i];
    assert next in un;
    var r := Dfs(AddEdge(s.edges, cur, next), s.visited + {next}, s.stack + [next], rng');
    AdvanceEdgesOk(s.edges, s.visited, cur, next);
    AdvanceCounts(s.edges, s.visited, cur, next);
    AdvanceLinked(s.edges, s.visited, cur, next);
    AdvanceStack(s, next, r);
    r
  }

  /** The `while (stack.length)` loop. */
  function Explore(s: Dfs): (r: Dfs)
    requires Inv(s)
    decreases Total - |s.visited|, |s.stack|
    ensures Inv(r) && r.stack == []
  {
    if |s.stack| == 0 then s
    else
      var un := Unvisited(Neighbours(s.stack[|s.stack| - 1]), s.visited);
      if |un| == 0 then Explore(Pop(s)) else Explore(Advance(s, un))
  }

  /** Blocks closed under taking neighbours, containing block 0, are all blocks. */
  lemma {:induction false} ClosedCoversAll(visited: set<int>, v: int)
    requires 0 in visited
    requires forall u :: u in visited ==> 0 <= u < Total && forall n :: n in Neighbours(u) ==> n in visited
    requires 0 <= v < Total
    decreases v
    ensures v in visited
  {
    if v > 0 {
      if v % MacroW > 0 {
        ClosedCoversAll(visited, v - 1);
        assert v in Neighbours(v - 1);
      } else {
        ClosedCoversAll(visited, v - MacroW);
        assert v in Neighbours(v - MacroW);
      }
    }
  }

  /** The spanning-tree facts of a finished traversal. */
  ghost predicate SpanningTree(edges: seq<seq<int>>) {
    && |edges| == Total
    && (forall a, b {:trigger b in edges[a]} :: 0 <= a < Total && b in edges[a] ==>
          0 <= b < Total && a in edges[b] && Adjacent(Pos(a), Pos(b)))
    && DegreeSum(edges) == 2 * (Total - 1)
    && UpperFrom(edges, 0) == Total - 1
    && (forall v :: 0 <= v < Total ==> Linked(edges, v))
  }

  /** `createMacroGraph(9, 5, rng)`: the adjacency is symmetric and joins only
      neighbouring blocks, there are exactly 44 edges, and every block is reached
      from block 0 along them, so the graph is a spanning tree of the block grid. */
  function CreateMacroGraph(rng: Rng): (r: (seq<seq<int>>, Rng))
    ensures SpanningTree(r.0)
  {
    var s0 := Dfs(seq(Total, _ => []), {0}, [0], rng);
    InitInv(s0);
    var s := Explore(s0);
    FinishedIsTree(s);
    (s.edges, s.rng)
  }

  lemma InitInv(s: Dfs)
    requires s.edges == seq(Total, _ => []) && s.visited == {0} && s.stack == [0]
    ensures Inv(s)
  {
    ZeroDegrees(s.edges);
    ZeroUpper(s.edges, 0);
    assert IsPath(s.edges, [0]);
  }

  /** A finished traversal has visited every block, so its edges form a spanning
      tree. */
  lemma FinishedIsTree(s: Dfs)
    requires Inv(s) && s.stack == []
    ensures SpanningTree(s.edges)
  {
    forall u | u in s.visited
      ensures 0 <= u < Total && forall n :: n in Neighbours(u) ==> n in s.visited
    {
    }
    forall v | 0 <= v < Total ensures v in s.visited {
      ClosedCoversAll(s.visited, v);
    }
    BoundedSize(s.visited, Total);
    forall a, b | 0 <= a < Total && b in s.edges[a]
      ensures Adjacent(Pos(a), Pos(b))
    {
      NeighboursAdjacent(a, b);
    }
  }

  lemma {:induction false} ZeroDegrees(edges: seq<seq<int>>)
    requires forall i :: 0 <= i < |edges| ==> edges[i] == []
    decreases |edges|
    ensures DegreeSum(edges) == 0
  {
    if |edges| > 0 {
      ZeroDegrees(edges[1..]);
    }
  }

  lemma {:induction false} ZeroUpper(edges: seq<seq<int>>, k: nat)
    requires forall i :: 0 <= i < |edges| ==> edges[i] == []
    decreases |edges| - k
    ensures UpperFrom(edges, k) == 0
  {
    if k < |edges| {
      ZeroUpper(edges, k + 1);
    }
  }

  /** `macroEdges.reduce((sum, e) => sum + e.size, 0) / 2`. */
  function EdgeCount(edges: seq<seq<int>>): (r: int)
    requires SpanningTree(edges)
    ensures r == Total - 1
  {
    DegreeSum(edges) / 2
  }
}
