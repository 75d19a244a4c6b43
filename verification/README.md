# Maze generators and validator, modelled in Dafny

The system generates square-cell mazes on a grid of `0` (open floor) and `1`
(wall) cells. Three generators draw from a seeded 32-bit generator
(mulberry32):

- **Variant 1** is recursive division. It starts from an open room inside a
  walled ring. It splits each rectangle with a wall on an even line and opens
  doors on odd positions. It puts the start in the left quarter and the exit
  at the farthest reachable cell. It retries up to six times until the path
  is long enough.
- **Variant 2** is hierarchical. A 9×5 macro spanning tree is drawn by
  depth-first search. Each of the 45 blocks is an 11×11 depth-first micro
  maze with optional extra loops, rooms and meso loops. The blocks are
  stitched into the grid, and every tree edge gets a door that joins two
  lattice cells. The start lies in the top-left block. The exit is the
  farthest reached cell of the bottom-right block, or of the whole grid as a
  fallback.
- **Variant 3** is fBm caves. A noise threshold decides the open interior.
  Only the largest 4-connected interior component is kept. The start is a
  random floor cell and the exit the farthest cell. A corridor is carved
  along the path between them, random branches are dug, and an optional
  guarded smoothing pass runs.

Breadth-first search supplies the distances. `validateMaze` accepts a maze
when all four conditions hold:

- the ring is wall;
- both endpoints exist;
- neither endpoint is a wall;
- the exit is reachable.

The golden-test helpers add three things: the FNV-1a hash of the wall
pattern, the open-cell count, and the field comparison.

The model is functional. Each generator is a pure function. It threads the
generator state `Prng.Rng` through every draw in the source's order, so the
same seed gives the same maze.

Modules follow the source files:

- `Grids`: cells, grids, `At`/`Put`, row-major scans, counting, the unvisited filter.
- `Prng`: `normalizeSeed`, `createRng`, `next`, `nextUint32`, `intBetween`
  and `choice`.
  - The 32-bit operations are exact modular arithmetic.
  - `next()` is the exact real `u / 2^32`.
- `Search`: walks, reachability, shortest distance, the farthest cell, and the invariants of
  the search.
- `Pathfinding`: `bfs`, `farthestCell`, `reconstructPath`, `bfsPathLength`.
- `Validator`: `validateMaze`.
- `Golden`: `fnv1a32GridHash`, `computeOpenPct` (as a count), `comparePair`.
- `Doors`: variant 1's presets, `randomEvenBetween`/`randomOddBetween` and
  `chooseDoors`.
- `Walls`: wall lines inside a rectangle, raising them and opening doors.
- `Division`: `divide`, `buildGrid`, `pickStart`, `generateOnce`,
  `generateRecursiveDivision`.
- `Macro`: `createMacroGraph`.
- `Micro`: `generateMicroMaze`.
- `Hierarchical`: `generateHierarchical`.
- `Components`: `keepLargestComponent`.
- `Caves`: the rest of `generateFbmCaves`.

## Model

| member | source | states |
|---|---|---|
| Prng.NormalizeSeed | src/prng.js:1-7 | A non-finite seed gives state 0. A finite seed is truncated toward zero and reduced modulo 2^32 (`>>> 0`), so a seed already in [0, 2^32) keeps its integer part. |
| Prng.NormalizeU32 | src/prng.js:1-7 | Normalising a 32-bit value leaves it unchanged. This is how a sub-seed from `nextUint32` re-enters `createRng`. |
| Prng.CreateRng | src/prng.js:9-10 | The generator starts in the normalised seed state. |
| Prng.ToInt32 | src/prng.js:15-16 | The 32-bit signed reading used by `t ^= t + …` lies in [-2^31, 2^31) and agrees with its argument modulo 2^32. |
| Prng.WrappedSum | src/prng.js:16 | Adding two 32-bit signed values then wrapping equals wrapping the exact sum. The `t + imul(…)` in the mixer therefore needs no intermediate wrap. |
| Prng.NextUint32 | src/prng.js:19-25 | Each draw advances the state by 0x6D2B79F5 modulo 2^32. |
| Prng.Next | src/prng.js:12-18 | The value lies in [0, 1). It is the `nextUint32` output of the same state divided by 2^32, and it leaves the same next state. |
| Prng.IntBetween | src/prng.js:26-32 | When max < min, the result is min and nothing is drawn. Otherwise it lies in [min, max] and consumes exactly one `nextUint32` draw. |
| Prng.Choice | src/prng.js:33-38 | An empty array gives undefined and draws nothing. Otherwise the result is an element of the array, after one draw. |
| Prng.StateClosedForm | src/prng.js:12-25 | After n draws the state is `(seed + n·0x6D2B79F5) mod 2^32`, whichever draws they were. |
| Prng.DrawsFollowStates | src/prng.js:19-25 | The k-th value of a stream of `nextUint32` draws is the draw from the state after k draws. |
| Prng.SameSeedSameStream | src/prng.js:1-25 | Two seeds that normalise alike produce the same stream of values and the same states. |
| Pathfinding.Explore | src/pathfinding.js:10-32 | The queue loop keeps the search invariant. When it ends, every queued cell is dequeued, the queue has no repeats, and a cell is queued exactly when its distance is set. |
| Pathfinding.Bfs | src/pathfinding.js:1-34 | The tables have the grid's shape and form a search tree from the start. The distance is 0 at the start, and each reached cell has a parent one step closer. Every reached cell has all its in-grid non-wall neighbours reached. |
| Pathfinding.BfsCorrect | src/pathfinding.js:1-34 | A cell's distance is -1 exactly when it cannot be reached through non-wall cells. Otherwise it is the length of the shortest such walk. |
| Pathfinding.WalksAreReached | src/pathfinding.js:18-31 | The end of any non-wall walk from the start is reached, at a distance no larger than the walk's length. |
| Pathfinding.ReconstructPath | src/pathfinding.js:53-65 | The path ends at the goal. For a reached goal it is a walk from the start whose length is the goal's distance plus one. For an unreached goal other than the start it is just `[goal]`. |
| Pathfinding.BfsPathLength | src/pathfinding.js:67-70 | The result is -1 exactly when the goal is unreachable. Otherwise it is the shortest walk length. |
| Pathfinding.FarthestCell | src/pathfinding.js:36-51 | The result is the largest distance in the table. The cell is the first in row-major order that has it. An all-unreached table gives (0, 0) with -1. |
| Validator.BorderLoops | src/main.js:67-76 | The two border loops accept exactly the grids whose outer ring is all wall. |
| Validator.ValidateMaze | src/main.js:64-88 | Each reason is returned exactly when its check is the first to fail. The order is border, missing endpoint, endpoint on a wall, unreachable exit. A valid result carries the shortest path length from start to exit. |
| Validator.AcceptedWith | src/main.js:64-88 | A walled grid with open endpoints and a shortest distance n between them is accepted with path length n. |
| Validator.DistanceUnique | src/main.js:83-87 | Two shortest distances between the same cells are equal, so the accepted path length is determined. |
| Golden.CellByte | tests/runGoldenTests.js:37 | A cell hashes as byte 1 exactly when it is a wall. Every other value, open or not, hashes as 0. |
| Golden.HashFromConcat | tests/runGoldenTests.js:33-42 | Hashing two byte runs one after the other equals hashing their concatenation, so rows can be hashed in turn. |
| Golden.Fnv1a32GridHash | tests/runGoldenTests.js:33-42 | The nested loop computes FNV-1a (offset basis 2166136261, prime 16777619, modulo 2^32) over the row-major wall bytes. |
| Golden.SameWallsSameBytes | tests/runGoldenTests.js:37 | Two grids with the same wall pattern have the same hash, whatever their non-wall values. |
| Golden.ToHex8 | tests/runGoldenTests.js:42 | The 32-bit hash renders as eight hexadecimal digits that read back as the hash. |
| Golden.RenderingInjective | tests/runGoldenTests.js:42 | Two 32-bit hashes render alike exactly when they are equal. |
| Golden.CountOpen | tests/runGoldenTests.js:20-31 | The counted open cells equal the multiplicity of 0 in the flattened grid, and are at most width × height. |
| Golden.ComparePair | tests/runGoldenTests.js:73-92 | A null or undefined expected value never gives a diff. Arrays differ when either of their first two entries differs. `openPct` numbers differ when they are more than 0.0001 apart, as exact reals. Other scalars differ when they are not strictly equal. |
| Doors.PresetByName | src/maze/variant1_recursiveDivision.js:248 | "B" and "C" select their presets. Any other name that is not an inherited object property falls back to A. |
| Doors.DoorCount | src/maze/variant1_recursiveDivision.js:8-26 | A level gets one or two doors. |
| Doors.ExtraDoors | src/maze/variant1_recursiveDivision.js:27-32 | Only preset C at depth ≤ 1 draws. It adds one door exactly when the draw is below 0.25, and every other case adds nothing without a draw. |
| Doors.JsRem2 | src/maze/variant1_recursiveDivision.js:37-49 | JavaScript's `n % 2` is 0 for even n, 1 for positive odd n and -1 for negative odd n. |
| Doors.RandomEvenBetween | src/maze/variant1_recursiveDivision.js:36-45 | There is no pick, and no draw, exactly when [min, max] has no even number. Otherwise the pick is an even number in range, after one draw. |
| Doors.RandomOddBetweenAsWritten | src/maze/variant1_recursiveDivision.js:47-56 | As written, any pick lies in [min, max]. |
| Doors.OddPickReturnsEven | src/maze/variant1_recursiveDivision.js:47-56 | As written, the call on [-3, -1] returns -2, an even number, although -3 and -1 are odd. |
| Doors.RandomOddBetween | src/maze/variant1_recursiveDivision.js:47-56 | Corrected: there is no pick exactly when the range has no odd number. Otherwise the pick is odd and in range. |
| Doors.OddPickAgreesFromZero | src/maze/variant1_recursiveDivision.js:47-56 | For min ≥ 0 the as-written and corrected picks coincide. |
| Doors.Swap | src/maze/variant1_recursiveDivision.js:62 | Swapping two entries permutes the array and changes only those two entries. |
| Doors.ShuffleFrom | src/maze/variant1_recursiveDivision.js:59-63 | The Fisher–Yates loop returns a permutation of the positions. |
| Doors.GreedyPick | src/maze/variant1_recursiveDivision.js:64-72 | The loop extends the chosen doors with shuffled positions only. It keeps every pair at least minSpacing apart and stops at count. |
| Doors.FillDoors | src/maze/variant1_recursiveDivision.js:73-75 | With positions available, it tops the list up to exactly count, using positions only. With none, nothing changes. |
| Doors.FirstPhase | src/maze/variant1_recursiveDivision.js:59-72 | The shuffle-then-greedy phase picks only positions, at most count of them, pairwise at least minSpacing apart. It picks at least one when there is a position and a door to place. |
| Doors.ChooseDoors | src/maze/variant1_recursiveDivision.js:58-77 | Every door is one of the positions. No positions gives no doors, and otherwise exactly count doors. The first-phase picks come first, are pairwise at least minSpacing apart, and are non-empty when there is a position and a door to place. |
| Walls.HalvesPartition | src/maze/variant1_recursiveDivision.js:124-183 | The two sub-rectangles and the wall line split the rectangle with no overlap. |
| Walls.RaiseWall | src/maze/variant1_recursiveDivision.js:102-107 | Exactly the open cells on the line become wall. The number raised (`wallsPlaced`) is the drop in the open count. The horizontal branch at lines 140-184 is the same with x and y swapped. |
| Walls.OpenDoors | src/maze/variant1_recursiveDivision.js:119-121 | Exactly the line cells at door positions become open, and nothing else changes. The horizontal branch at lines 140-184 is the same with x and y swapped. |
| Division.ChooseOrientation | src/maze/variant1_recursiveDivision.js:87-94 | The choice is vertical with probability 0.65 for wide rectangles, horizontal with 0.65 for tall ones and 0.5 for squares, from one draw. |
| Division.OddPositions | src/maze/variant1_recursiveDivision.js:112-117 | The candidate door positions are exactly the odd numbers of the span, in increasing order. The horizontal branch at lines 140-184 is the same with x and y swapped. |
| Division.PickLine | src/maze/variant1_recursiveDivision.js:96-101 | A wall line sits on an even coordinate strictly inside the rectangle and spans it. The horizontal branch at lines 140-184 is the same with x and y swapped. |
| Division.DrawDoors | src/maze/variant1_recursiveDivision.js:109-118 | One to three doors are drawn, all on odd positions of the line. The horizontal branch at lines 140-184 is the same with x and y swapped. |
| Division.BuildLine | src/maze/variant1_recursiveDivision.js:102-121 | One level changes only cells on its line. Every open cell left on the line is at an odd position. The horizontal branch at lines 140-184 is the same with x and y swapped. |
| Division.Divide | src/maze/variant1_recursiveDivision.js:79-185 | Recursion only changes cells of the rectangle on an even row or column, and only opens cells on an odd row or column. Too-small rectangles just record the depth. The counters only grow. |
| Division.BuildGrid | src/maze/variant1_recursiveDivision.js:187-197 | The ring is wall and everything inside is open. |
| Division.PickStart | src/maze/variant1_recursiveDivision.js:199-212 | There is no start exactly when no open cell lies in columns 1..⌊(w-2)/4⌋ of the interior rows. Otherwise the start is such a cell. |
| Division.ExitIsFarthest | src/maze/variant1_recursiveDivision.js:232-234 | The exit is a reachable non-wall cell whose shortest distance is the path length. No reachable cell is farther, and no earlier cell in row-major order is as far. |
| Division.DividedGrid | src/maze/variant1_recursiveDivision.js:228-230 | After division the ring is still wall, and cell (1, 1) stays open. |
| Division.Finish | src/maze/variant1_recursiveDivision.js:231-244 | The maze keeps the grid, start and counters. Its exit is the first farthest cell reachable from the start, at the path length's distance. On a walled ring it passes `validateMaze` with that path length. |
| Division.GenerateOnce | src/maze/variant1_recursiveDivision.js:227-245 | There is a maze exactly when the grid is at least 6 wide and 3 high. It has the requested size and a wall ring. The start is an open cell in columns 1..⌊(w-2)/4⌋ of an interior row. The exit is the first farthest reachable cell, at the path length's distance. The maze passes `validateMaze` with that path length. |
| Division.GenerateRecursiveDivision | src/maze/variant1_recursiveDivision.js:247-271 | Same existence condition. The result carries the seed and preset name. Its maze meets everything `generateOnce` promises: size, wall ring, start placement, farthest exit and acceptance by `validateMaze`. |
| Division.FirstAcceptedAttempt | src/maze/variant1_recursiveDivision.js:253-270 | The returned maze is the one from the first attempt whose path length reaches minDistance, or the sixth attempt. Attempt k runs on `createRng` of the k-th `nextUint32` of the base generator. |
| Grids.Unvisited | src/maze/variant2_hierarchical.js:36 | The filtered list holds exactly the listed neighbours not yet visited. The cell filter at lines 70-72 is the same over cells, whose `cellIndex` keys do not collide. |
| Macro.NeighboursAdjacent | src/maze/variant2_hierarchical.js:29-35 | A block's candidate neighbours are exactly the 4-adjacent blocks inside the 9×5 grid. |
| Macro.Explore | src/maze/variant2_hierarchical.js:27-46 | The depth-first loop keeps the invariant until the stack is empty: the edges are symmetric and link visited blocks to block 0. |
| Macro.ClosedCoversAll | src/maze/variant2_hierarchical.js:27-46 | When the loop stops, every block has been visited. |
| Macro.CreateMacroGraph | src/maze/variant2_hierarchical.js:21-48 | The adjacency is symmetric and joins only neighbouring blocks. The degree sum is 2·44, and every block is linked to block 0: a spanning tree. |
| Macro.EdgeCount | src/maze/variant2_hierarchical.js:175 | A spanning tree's edge count, `Σ degrees / 2`, is 44. |
| Micro.Initial | src/maze/variant2_hierarchical.js:51-58 | The block starts with exactly the odd-odd lattice cells open. |
| Micro.Explore | src/maze/variant2_hierarchical.js:63-81 | The depth-first loop keeps the invariant until the stack is empty. |
| Micro.FinishKeeps | src/maze/variant2_hierarchical.js:63-81 | When the stack empties, all 25 lattice cells are visited. |
| Micro.Carve | src/maze/variant2_hierarchical.js:59-81 | Carving keeps every lattice cell open and leaves non-passage cells as wall. It opens exactly 24 passages, one per visited cell after the first. |
| Micro.PunchLoops | src/maze/variant2_hierarchical.js:83-99 | Only candidate wall cells open. The loop count equals the rise in open cells. |
| Micro.OpenRooms | src/maze/variant2_hierarchical.js:101-111 | Each room's 2×2 square is opened, and only room cells change. |
| Micro.MesoLoops | src/maze/variant2_hierarchical.js:113-122 | Only cells of rows 2..8, columns 1..9 are opened. |
| Micro.MicroMaze | src/maze/variant2_hierarchical.js:50-125 | The block is 11×11 with binary cells and all lattice cells open. It has at least 24 + 25 + loops open cells. |
| Hierarchical.PresetOf | src/maze/variant2_hierarchical.js:4-19 | Every preset places one door per macro edge. |
| Hierarchical.MakeBlocks | src/maze/variant2_hierarchical.js:177-185 | The block loop yields 45 blocks, each a good micro maze. |
| Hierarchical.StitchVerbatim | src/maze/variant2_hierarchical.js:187-199 | Each block cell is copied to its offset `1 + b·11` in the grid. |
| Hierarchical.Stitch | src/maze/variant2_hierarchical.js:187-199 | Cells outside every block stay wall. |
| Hierarchical.DoorJoinsLattices | src/maze/variant2_hierarchical.js:212-231 | The four door cells of an edge form an adjacent chain. It runs from a lattice cell of one block across the boundary to a lattice cell of the other. |
| Hierarchical.CarveDoor | src/maze/variant2_hierarchical.js:212-232 | The door offset is one of 1, 3, 5, 7, 9 after one draw. The four door cells become open and nothing else changes. |
| Hierarchical.PlaceDoors | src/maze/variant2_hierarchical.js:201-235 | Only cells open. `doorsPlaced` is 44 × doors per edge, one per tree edge counted once. |
| Hierarchical.PickStart | src/maze/variant2_hierarchical.js:246-258 | The start is an open cell of the top-left block. |
| Hierarchical.FindFarthestInBlock | src/maze/variant2_hierarchical.js:148-166 | There is no exit exactly when the block has no reached cell. Otherwise it is the first cell in row-major order with the block's greatest distance. |
| Hierarchical.PickExit | src/maze/variant2_hierarchical.js:259-275 | The exit is reachable at its shortest distance. It is the farthest reached cell of the bottom-right block, or of the grid when that block is unreached. Ties go to the first cell in row-major order. |
| Hierarchical.Build | src/maze/variant2_hierarchical.js:174-244 | The assembled grid has the requested size, a wall ring, and every block's lattice cells open. It has 44 macro edges and 44 × doors per edge doors. |
| Hierarchical.GenerateHierarchical | src/maze/variant2_hierarchical.js:168-291 | There is a maze exactly when the grid is at least 100×56. It passes `validateMaze` with its path length, and its start and exit are placed as above. |
| Components.InComponent | src/maze/variant3_fbmCaves.js:128-161 | A cell is in s's component exactly when an interior floor walk joins them. |
| Components.SameComponent | src/maze/variant3_fbmCaves.js:128-161 | Any member of a component has the same component, so the sweep's visited marks are sound. |
| Components.RewalledWalks | src/maze/variant3_fbmCaves.js:146-155 | Searching the grid with its ring walled reaches exactly the interior component. The search obeys the interior bound. |
| Components.Component | src/maze/variant3_fbmCaves.js:133-156 | The flood fill from s collects exactly s's interior component. |
| Components.LargestComponent | src/maze/variant3_fbmCaves.js:127-161 | The sweep keeps the first component in row-major order of the largest size. The strict `>` means ties keep the earlier one, and a grid without floor keeps none. |
| Components.Prune | src/maze/variant3_fbmCaves.js:162-169 | An interior cell stays open exactly when it was open and kept. Only open interior cells change, and they become wall. |
| Components.KeepLargestComponent | src/maze/variant3_fbmCaves.js:123-171 | Only open interior cells outside the first largest component become wall. The size is that component's cell count. |
| Components.OneComponentRemains | src/maze/variant3_fbmCaves.js:123-171 | Afterwards any two floor cells are joined by a floor walk. |
| Caves.PresetOf | src/maze/variant3_fbmCaves.js:4-35 | Every preset has corridor radius 1 and no smoothing rounds. |
| Caves.Hash2d | src/maze/variant3_fbmCaves.js:37-41 | The lattice hash is a 32-bit value. |
| Caves.HashReadsWords | src/maze/variant3_fbmCaves.js:37-41 | The hash depends only on its arguments modulo 2^32. |
| Caves.NoiseGrid | src/maze/variant3_fbmCaves.js:243-250 | The ring is wall and every cell is 0 or 1. An interior cell is open exactly when the noise test passes. |
| Caves.RandomFloorCell | src/maze/variant3_fbmCaves.js:173-183 | There is no start exactly when no interior cell is open, and then nothing is drawn. Otherwise the start is an open interior cell. |
| Caves.Square | src/maze/variant3_fbmCaves.js:189-190 | The offsets visited around a path cell are exactly those within the radius on both axes. |
| Caves.CarveCorridor | src/maze/variant3_fbmCaves.js:185-200 | An interior cell within the radius of a path cell becomes open. Every other cell, including the ring, keeps its value. |
| Caves.Around | src/maze/variant3_fbmCaves.js:227-233 | The widening writes touch exactly the four neighbours. |
| Caves.BranchLength | src/maze/variant3_fbmCaves.js:212 | A branch is 10 to 69 steps long. |
| Caves.OpenStep | src/maze/variant3_fbmCaves.js:225-234 | A step changes only its own cell and, when widened, its four neighbours. It only opens cells and never touches the ring. |
| Caves.BranchWalk | src/maze/variant3_fbmCaves.js:216-235 | A branch only opens interior cells, because it stops before the second ring. |
| Caves.Branches | src/maze/variant3_fbmCaves.js:202-238 | All branches only open interior cells. The summed length is between 10 and 69 per branch. |
| Caves.TallyCounts | src/maze/variant3_fbmCaves.js:94-103 | The neighbour loop counts exactly the walls among the eight surrounding cells. |
| Caves.SmoothGrid | src/maze/variant3_fbmCaves.js:87-108 | The ring keeps its values. An interior cell becomes wall exactly when at least five of its eight neighbours were wall, and open otherwise. |
| Caves.Smoothing | src/maze/variant3_fbmCaves.js:263-278 | Smoothing is applied exactly when rounds are asked for and the exit stays reachable on the smoothed grid. Otherwise the grid is unchanged. |
| Caves.Carve | src/maze/variant3_fbmCaves.js:256-261 | The exit is the farthest cell from the start. Corridor and branches only open interior cells, and the summed branch length is bounded by the branch count. |
| Caves.WalkSurvives | src/maze/variant3_fbmCaves.js:260-281 | Opening cells keeps the exit reachable, with a shortest path no longer than before. |
| Caves.Complete | src/maze/variant3_fbmCaves.js:256-301 | The cave has a wall ring and an interior start. Its path length is a shortest distance. Without smoothing the start is open and `validateMaze` accepts it with that length. |
| Caves.PrunedNoise | src/maze/variant3_fbmCaves.js:243-256 | Pruning keeps the ring. An open interior cell remains exactly when the noise opened one. |
| Caves.GenerateFbmCaves | src/maze/variant3_fbmCaves.js:240-302 | There is a cave exactly when the noise opens an interior cell. It is a good cave from the kept largest component of the noise grid, with the preset's branch count, seed and preset name. |

## Left out

- `randomSeed` (src/prng.js:42-49) reads the crypto source or the clock. It is I/O.
- `src/main.js` apart from `validateMaze` is UI wiring: seed parsing, rendering and controls. `render.js` is drawing. The golden-test driver that fetches `golden.json` is I/O.
- `fade`, `lerp`, `valueNoise` and `fbm` of variant 3 are floating-point noise. `Caves.NoiseGrid` and `Caves.GenerateFbmCaves` take the threshold test `fbm(x·scale, y·scale) > threshold` as the parameter `noiseOpen`. `Caves.Hash2d` is stated on its own and not connected to that parameter.
- Caves.Hash2d: treats `x * 374761393` as exact integer arithmetic. The source multiplies in doubles, which is exact only while the product stays below 2^53, so for coordinates of grid size.
- `openPct` (all three variants, and `computeOpenPct`) is a ratio of doubles. The model keeps the open-cell count and states it. Variant 3's `avgBranchLen` is kept as the summed branch length.
- Caves.BranchLength: `floor(10 + 60·u²)` is computed on exact reals. Double rounding of `u²` is not modelled; only the bounds [10, 69] are stated.
- Division.GenerateRecursiveDivision: `0.3 * Math.hypot(width, height)` is the real parameter minDistance. The square root is not computed.
- Division.GenerateOnce: the source throws when `pickStart` finds no candidate, and the model returns no maze instead. For widths below 6 or heights below 3 no maze is produced.
- Hierarchical.GenerateHierarchical: grids smaller than 100×56 give no maze. The source writes the 45 blocks past the end of such a grid.
- Micro.MicroMaze: that the depth-first micro maze is a perfect maze (all lattice cells joined) is not proved. Its lattice cells, binary cells and open count are.
- Components.Component: the flood fill's visiting order is not modelled. The component is the set reached by the search on the grid with its ring walled, which is the set the source's interior-bounded queue collects.
- Caves.GenerateFbmCaves: without an open interior cell (including width or height 0) the source reads `undefined` and throws. The model returns no cave.
- Caves.GenerateFbmCaves: `smoothIterations` is 0 in all three presets, so the generated cave never smooths. `Caves.Smoothing` is modelled for any number of rounds, but validity after smoothing is not claimed.
- Doors.PresetByName: a preset name that is an inherited object property, such as "constructor", "toString" or "__proto__", is not modelled. `PRESETS[name]` is truthy for it, so the source does not fall back to A. Variant 1 then throws at `preset.doorCount`, and variant 2 opens no extra micro loops and reports `doorsPlacedBetweenBlocks` as NaN. The model treats such a name as A, because its names are plain strings with no prototype chain.
- Golden.ComparePair: numbers are exact reals, and `Math.abs(expected - actual) > 0.0001` is decided on them. The source subtracts and compares doubles, and the double nearest 0.0001 lies slightly above 1/10000. A difference within a rounding error of the tolerance can therefore be judged differently.
- Prng.Next: the double `u / 2^32` is modelled as the exact real. The comparisons with 0.65, 0.5, 0.25, 0.1, 0.2, 0.3 and 0.6 are taken on reals. A 32-bit numerator over 2^32 is exact in a double.

## Findings

| source | as written | input that shows it | evidently intended | confidence | as-written member | corrected member |
|---|---|---|---|---|---|---|
| src/maze/variant1_recursiveDivision.js:47-56 | `randomOddBetween` tests `min % 2 === 1`. JavaScript's `%` is -1 for negative odd numbers, so a negative odd `min` is moved up to an even start. | `randomOddBetween(rng, -3, -1)` returns -2. | An odd number in [min, max], or none when the range has no odd number. | not executed (the function is not called by the generators, so no maze is affected) | Doors.RandomOddBetweenAsWritten, Doors.OddPickReturnsEven | Doors.RandomOddBetween, Doors.OddPickAgreesFromZero |
