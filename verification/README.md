# Path-Finder maze core, modelled in Dafny

Path-Finder draws a rectangular maze of square cells, lets the user pick a
generator (recursive backtracker, Prim, Kruskal), scatters obstacles, and
animates one of four solvers (depth-first search, breadth-first search,
Dijkstra's search, A*) walking from a start corner to an end corner. This
project models the program's core as pure Dafny functions and methods and
proves what each part promises:

- the grid: row-major addressing (`indexXY`), the four walls per cell and
  their mirror symmetry, visited and obstacle flags (`grid.dfy`);
- the union-find structure with path compression and union by rank
  (`dsu.dfy`);
- the three generators, each of which carves a spanning tree, and the two
  post-passes `addMazeComplexity` and `ensureMultiplePathways`
  (`carving.dfy`, `backtracker.dfy`, `prim.dfy`, `kruskal.dfy`,
  `postpass.dfy`, `generation.dfy`);
- `pickStartEnd`, `randomizeObstacles` (with its enumeration of every simple
  start-to-end path) and `clearObstacles` (`endpoints.dfy`, `obstacles.dfy`);
- the event log, the path reconstruction and the retroactive path marking,
  and the four solvers (`events.dfy`, `dfs.dfy`, `bfs.dfy`, `search.dfy`,
  `bestfirst.dfy`, `solvers.dfy`);
- the playback panel of `src/new.cpp`: Play, Pause, Step, the clock-driven
  auto mode, Reset Run and Clear Visualization (`playback.dfy`);
- the single-file build `src/main.cpp`, where it differs: a start anywhere,
  five endpoint candidates with a retry loop, coin-flip obstacles and
  per-cell weights for Dijkstra's search and A* (`legacy.dfy`).

Randomness is an explicit sequence of draws: `Choice.Pick(draws, k, n)` is
draw number `k` reduced into `[0, n)`, and a draw past the end of the
sequence reads as zero. `std::shuffle` is a Fisher-Yates pass over such a
sequence. Each randomised component takes its own sequence, so the
properties hold for every outcome of the generator. The bit packing
`(dir << 16) | cell` is written as `dir * 65536 + cell`, which is the same
number for a direction below 4 and a cell below 65536. Floating-point
distances are `Dist` (`Inf` or a finite natural), the obstacle density is a
fraction `num / den`, and the clock is an integer number of ticks.

## Model

| member | source | states |
|---|---|---|
| Grid.IndexXY | src/headers/common.h:95-100 | the address is -1 exactly when the coordinates are off the grid; otherwise it lies inside the grid |
| Grid.EncodeDecode | src/headers/common.h:95-102 | decoding an address with `% cols` and `/ cols` gives back the column and row it was built from |
| Grid.DecodeEncode | src/headers/common.h:95-102 | every address inside the grid is the encoding of its own column and row |
| Grid.NewGrid | src/headers/common.h:41-46 | a freshly assigned grid has every wall up and no cell visited or blocked |
| Grid.FreshCellDefaults | src/headers/common.h:41-46 | a default cell has all four walls and neither flag |
| Grid.NeighborIsIndex | src/modules/maze_generation.cpp:37-41 | stepping in a direction from a cell is `index(x + dx, y + dy)` of the direction table |
| Grid.RemoveWallsAB | src/modules/maze_generation.cpp:48-52 | wall `w` of `a` and the opposite wall of `b` come down; every other wall and every flag stays as it was |
| Grid.RemoveWallsKeepsSymmetry | src/modules/maze_generation.cpp:48-52 | opening a wall pair between neighbours keeps each wall equal to its mirror in the neighbouring cell |
| Grid.ClearGridVisited | src/modules/maze_generation.cpp:54-58 | every visited flag is cleared and nothing else about any cell changes |
| Grid.ManhattanStep | src/modules/solvers.cpp:167-172 | one move changes the Manhattan distance to a target by at most one, in either direction |
| Choice.Pick | src/modules/maze_generation.cpp:186-187 | a uniform draw on `[0, n-1]` lands inside that range |
| Choice.Shuffle | src/modules/maze_generation.cpp:78 | `std::shuffle` rearranges the elements without adding or losing any |
| Choice.ShuffleKeeps | src/modules/maze_generation.cpp:78 | a prefix of a shuffled duplicate-free list holds distinct elements of the list |
| UnionFind.Reset | src/modules/maze_generation.cpp:8-14 | after `reset(n)` every element is its own root with rank zero, giving `n` separate sets |
| UnionFind.Find | src/modules/maze_generation.cpp:16-19 | `find` returns the root of the element's set, leaves the element pointing straight at it, and changes no set |
| UnionFind.CompressKeepsRoots | src/modules/maze_generation.cpp:16-19 | pointing an element at its root keeps the structure valid and every element's root unchanged |
| UnionFind.Unite | src/modules/maze_generation.cpp:21-33 | `unite` succeeds exactly when the two elements were in different sets; it then merges those two sets into one, touches no other, and lowers the number of sets by one |
| UnionFind.UniteByRank | src/modules/maze_generation.cpp:27-32 | the root of lower rank is hung under the other, and the surviving rank grows only on a tie |
| UnionFind.SameSet | src/modules/maze_generation.cpp:23-26 | uniting two elements of one set changes no set |
| UnionFind.Merged | src/modules/maze_generation.cpp:27-32 | linking two distinct roots merges exactly their two sets |
| UnionFind.LinkCount | src/modules/maze_generation.cpp:29-32 | linking two distinct roots leaves one set fewer |
| UnionFind.UniteKeepsRoot | src/modules/maze_generation.cpp:21-33 | after `unite` the merged set is represented by one of the two old representatives |
| Carving.OpenAllOpensOnly | src/modules/maze_generation.cpp:48-52 | opening a list of wall pairs only ever removes walls |
| Carving.OpenAllIdempotent | src/modules/maze_generation.cpp:48-52 | opening the same wall pairs again changes nothing |
| Carving.OpenAllSymmetric | src/modules/maze_generation.cpp:48-52 | opening neighbour pairs on a symmetric grid leaves it symmetric |
| Carving.OpenAllSuper | src/modules/maze_generation.cpp:48-52 | opening a superset of edges opens at least the same walls |
| Carving.SpanningTreeConnects | src/modules/maze_generation.cpp:165-220 | once the walls of a carved spanning tree are open, every cell can be walked to from the carve's start |
| Carving.InteriorStart | src/modules/maze_generation.cpp:171-173 | the carve starts in column `[1, cols-2]` and row `[1, rows-2]` |
| Carving.CarveDone | src/modules/maze_generation.cpp:179 | when the loop stops every cell has been visited and the edges taken form a spanning tree |
| Carving.ClearedIsTree | src/modules/maze_generation.cpp:215 | clearing the visited flags leaves exactly the tree's walls open |
| Backtracker.PackRoundTrip | src/modules/maze_generation.cpp:188 | unpacking a packed neighbour gives back its direction and cell |
| Backtracker.UnvisitedNeighbors | src/modules/maze_generation.cpp:35-46 | each packed entry names an on-grid unvisited neighbour in its direction, and the list is empty exactly when there is none |
| Backtracker.CarveStep | src/modules/maze_generation.cpp:184-200 | one turn of the loop: with an unvisited neighbour, the drawn one is entered, its edge carved and the cell pushed; without one, the stack is popped |
| Backtracker.Stuck | src/modules/maze_generation.cpp:201-212 | with an empty stack and no unvisited neighbour every cell is already visited, so the fallback scan never runs |
| Backtracker.CarveAll | src/modules/maze_generation.cpp:175-213 | the loop ends with every cell visited and the carved edges a tree grown from the start |
| Backtracker.GenerateBacktracker | src/modules/maze_generation.cpp:165-215 | the maze is a spanning tree grown from an interior start, its walls symmetric and exactly the tree's walls open |
| Prim.AddFrontier | src/modules/maze_generation.cpp:237-247 | every frontier edge leaves the cell toward an on-grid neighbour, and every unvisited neighbour gets one |
| Prim.SwapRemove | src/modules/maze_generation.cpp:254-256 | moving the last entry into slot `k` drops exactly entry `k` |
| Prim.SwapRemoveKeeps | src/modules/maze_generation.cpp:254-256 | every other entry survives the removal |
| Prim.GrowStep | src/modules/maze_generation.cpp:252-264 | the drawn frontier edge is dropped when its cell is visited; otherwise it is carved, its cell entered and that cell's frontier added |
| Prim.GrowAll | src/modules/maze_generation.cpp:249-265 | the loop ends with every cell visited and the carved edges a tree grown from the start |
| Prim.GeneratePrim | src/modules/maze_generation.cpp:222-267 | the maze is a spanning tree grown from an interior start, its walls symmetric and exactly the tree's walls open |
| Kruskal.CellEdgesFacts | src/modules/maze_generation.cpp:291-297 | a cell contributes its east edge, then its south edge, and an edge is listed exactly when it leaves the cell east or south toward a neighbour on the grid |
| Kruskal.KruskalEdges | src/modules/maze_generation.cpp:286-300 | the candidate list holds only east and south adjacencies, each once |
| Kruskal.KruskalEdgesComplete | src/modules/maze_generation.cpp:286-300 | every east or south adjacency of the grid is a candidate |
| Kruskal.ScanOne | src/modules/maze_generation.cpp:307-309 | an edge is kept and its walls opened exactly when its two cells were in different sets |
| Kruskal.ScanEdges | src/modules/maze_generation.cpp:306-310 | after the scan every candidate edge joins two cells of one set, the first edge scanned is always kept, and on an obstacle-free grid two cells of one set can walk to each other |
| Kruskal.ScanFrom | src/modules/maze_generation.cpp:306-310 | the rest of the scan only appends to the kept edges, keeps the current edge when its cells lie in different sets, and keeps every set walkable |
| Kruskal.UniteReach | src/modules/maze_generation.cpp:307-309 | uniting the cells of a grid edge, and opening its wall pair when they lay in different sets, keeps every set walkable |
| Kruskal.OpenedEdgeReach | src/modules/maze_generation.cpp:307-309 | once an edge's wall pair is open on an obstacle-free grid, its two cells can walk to each other both ways |
| Kruskal.MergedPair | src/modules/maze_generation.cpp:307-309 | two cells of one merged set can walk to each other when each old set was walkable and the united cells can |
| Kruskal.OneSetConnected | src/modules/maze_generation.cpp:305-310 | one set left and every set walkable means every cell reaches every other |
| Kruskal.GenerateKruskal | src/modules/maze_generation.cpp:274-312 | exactly `cols*rows - 1` distinct adjacencies are opened, the walls are exactly theirs and symmetric, the first edge of the shuffled list is among them, and the maze is connected |
| PostPass.PossibleWalls | src/modules/maze_generation.cpp:137-145 | a direction is listed exactly when the cell still has a wall toward an on-grid neighbour |
| PostPass.ComplexityRound | src/modules/maze_generation.cpp:129-161 | a round opens at most one standing wall, and it leaves from the drawn cell, which is never an endpoint (the neighbour it opens into may be one); it opens none only when the drawn cell is an endpoint or has no wall to open |
| PostPass.AddMazeComplexity | src/modules/maze_generation.cpp:123-163 | at most `max(2, cells/50)` walls come down, each on the grid and each leaving from a drawn cell that is not an endpoint |
| PostPass.Targets | src/modules/maze_generation.cpp:63-78 | the corridor targets are distinct positions of the 5 by 5 box around the cell, seven of them or all the box has |
| PostPass.BoxAtLeastEight | src/modules/maze_generation.cpp:68-76 | on a grid at least 3 by 3 the box around any cell holds at least eight positions |
| PostPass.SevenPathways | src/modules/maze_generation.cpp:80-114 | on a grid at least 3 by 3 every cell gets exactly seven corridors |
| PostPass.PathwaysAround | src/modules/maze_generation.cpp:63-115 | every corridor wall it opens lies between on-grid neighbours near the cell |
| PostPass.WalkConnects | src/modules/maze_generation.cpp:86-112 | the staircase of steps, columns first, connects the cell to its target once opened |
| PostPass.RoundConnects | src/modules/maze_generation.cpp:88-111 | opening one round of the staircase lets a walk continue from its start |
| PostPass.EnsureMultiplePathways | src/modules/maze_generation.cpp:61-121 | every wall opened lies near the start or the end |
| PostPass.PathwaysConnect | src/modules/maze_generation.cpp:61-121 | afterwards the start reaches each of its corridor targets, and so does the end |
| Generation.Carve | src/modules/maze_generation.cpp:493-498 | the selected generator only removes walls, keeps them symmetric, places no obstacle, and leaves the maze connected whichever generator ran |
| Generation.TreeConnected | src/modules/maze_generation.cpp:165-272 | a spanning tree's walls opened on a fresh grid connect every pair of cells |
| Generation.PostPasses | src/modules/maze_generation.cpp:217-219 | the post-passes only remove walls, keep them symmetric, and open loop walls only from cells other than the endpoints they are given, and corridors near those endpoints |
| Generation.PostPassesConnect | src/modules/maze_generation.cpp:217-219 | on an obstacle-free grid both endpoints reach all their corridor targets afterwards |
| Generation.PickKeepsLayout | src/modules/maze_generation.cpp:344-345 | on a grid without obstacles choosing the endpoints changes no cell |
| Generation.Regenerate | src/modules/maze_generation.cpp:490-501 | the regenerated maze is connected, symmetric and obstacle-free, its endpoints are the drawn corners, and its corridors lie near the previous maze's endpoints |
| Generation.StaleCorridorsMissStart | src/modules/maze_generation.cpp:490-501 | from the startup endpoints, a draw of 3 makes the bottom-right corner the new start, and no corridor touches it |
| Generation.RegenerateFixed | src/modules/maze_generation.cpp:490-501 | with the endpoints chosen before the post-passes, both get seven corridors they can walk along |
| Endpoints.Corners | src/modules/maze_generation.cpp:322-327 | four on-grid cells, the first at the top left and the last at the bottom right |
| Endpoints.ChooseEnds | src/modules/maze_generation.cpp:329-341 | start and end are two different corners |
| Endpoints.ChooseEndsCovers | src/modules/maze_generation.cpp:329-341 | every ordered pair of distinct corners is the outcome of some draws |
| Endpoints.SetBlocked | src/modules/maze_generation.cpp:344-345 | only the obstacle flag of one cell changes |
| Endpoints.Unblock | src/modules/maze_generation.cpp:344-345 | the cell ends unblocked and nothing else changes |
| Endpoints.PickStartEnd | src/modules/maze_generation.cpp:319-350 | start and end are distinct corners, both unblocked, and every other cell and every wall is as before |
| Obstacles.ClearObstacles | src/modules/maze_generation.cpp:484-488 | every obstacle is removed; walls and visited flags stay |
| Obstacles.ClearObstaclesIdempotent | src/modules/maze_generation.cpp:484-488 | clearing twice is clearing once, and clearing keeps the walls symmetric |
| Obstacles.AllPaths | src/modules/maze_generation.cpp:360-391 | every path `findAllPaths` records is a simple walk from the start to the end |
| Obstacles.AllPathsComplete | src/modules/maze_generation.cpp:360-391 | every simple walk from the start to the end is recorded |
| Obstacles.NoPathsUnreachable | src/modules/maze_generation.cpp:393-397 | on a grid without obstacles the enumeration is empty exactly when the end cannot be reached |
| Obstacles.Freq | src/modules/maze_generation.cpp:413-421 | a cell's tally is zero exactly when no path visits it |
| Obstacles.ObstacleCount | src/modules/maze_generation.cpp:472 | `min((int)(size * density), size)` never exceeds the pool and truncates toward zero |
| Obstacles.SixTenths | src/modules/maze_generation.cpp:439 | `(int)(size * 0.6f)` is sixty per cent of the size rounded down |
| Obstacles.BlockFirst | src/modules/maze_generation.cpp:441-444 | exactly the first `n` listed cells gain an obstacle; walls stay |
| Obstacles.Pool | src/modules/maze_generation.cpp:423-467 | the pool is the cells in at least 70 per cent of paths (block-all) or on no path and not an endpoint (preserve), each once |
| Obstacles.Scatter | src/modules/maze_generation.cpp:469-477 | only pool cells gain obstacles and none is lost |
| Obstacles.ScatterCount | src/modules/maze_generation.cpp:469-477 | on an obstacle-free grid exactly `n` obstacles are placed |
| Obstacles.RandomizeObstacles | src/modules/maze_generation.cpp:352-482 | walls stay, start and end stay open, nothing is blocked when no path exists, and every obstacle is a critical cell (block-all) or a cell off every path (preserve) |
| Obstacles.RandomizeCount | src/modules/maze_generation.cpp:352-482 | the number of obstacles placed is the strategy's quota of its pool, or zero when no path exists |
| Obstacles.PreserveKeepsPaths | src/modules/maze_generation.cpp:449-481 | the preserving strategy leaves every enumerated path walkable, so the end is reachable exactly when it was before |
| Events.ResetAnimationBuffers | src/modules/solvers.cpp:4-13 | the run is idle, its cursor at zero and its log, path and drawings empty |
| Events.ResetForgets | src/modules/solvers.cpp:4-13 | the reset result does not depend on the run before it, and resetting twice is resetting once |
| Events.PushEvent | src/modules/solvers.cpp:15-18 | one event is appended and the earlier ones are untouched |
| Events.RetraceAppend | src/modules/solvers.cpp:34-59 | replaying two logs in turn is replaying their concatenation |
| Events.RetraceFrame | src/modules/solvers.cpp:34-59 | a log that replays cleanly never looks below the stack it starts on |
| Events.MarkPath | src/modules/solvers.cpp:96-105 | an event is accepted afterwards exactly when it was before or its move is on the final path; nothing else about it changes |
| Events.MarkPathMonotone | src/modules/solvers.cpp:96-105 | marking never clears a flag, and marking twice is marking once |
| Events.Reconstruct | src/modules/solvers.cpp:88-95 | the path follows parent links back from the end, oldest edge first, each edge from a cell's parent to the cell, starting at a root; it is empty exactly when the end has no parent |
| DepthFirst.Visit | src/modules/solvers.cpp:38-56 | the recursion logs only traversable moves, enters each cell at most once, and on success the log's surviving moves walk from the cell to the end; on failure every reached cell is fully expanded |
| DepthFirst.SolveDFS | src/modules/solvers.cpp:34-59 | the depth-first search succeeds exactly when the end is reachable; its accepted moves enter distinct cells, and the moves that survive its retractions walk from start to end |
| BreadthFirst.FrontOptimal | src/modules/solvers.cpp:70-87 | the cell at the front of the queue is at its true shortest distance from the start |
| BreadthFirst.DiscoverStep | src/modules/solvers.cpp:79-85 | discovering one neighbour keeps every invariant of the search |
| BreadthFirst.Expand | src/modules/solvers.cpp:77-86 | expanding a cell in all four directions keeps every invariant of the search and only appends to the queue and the event log |
| BreadthFirst.SolveBFS | src/modules/solvers.cpp:61-106 | every logged move is traversable and enters a new cell; the path is non-empty exactly when the end is reachable and distinct from the start, and it is then a shortest walk; an event is accepted exactly when its move is on the path |
| Search.UnitCost | src/modules/solvers.cpp:135 | with every move costing one a walk costs its number of moves |
| Search.CostSplit | src/modules/solvers.cpp:135 | the cost of a walk is the sum of the costs of its two halves |
| Search.HeuristicAlong | src/modules/solvers.cpp:167-172 | along a walk a consistent heuristic falls by no more than the walk's cost |
| Search.ManhattanConsistent | src/modules/solvers.cpp:167-172 | the Manhattan heuristic is consistent when every move costs at least one |
| Search.ClosedUnreachable | src/modules/solvers.cpp:61-106 | a set holding the start but not the end and closed under moves shows the end unreachable |
| BestFirst.MinIndex | src/modules/solvers.cpp:123 | the entry `pq.top()` yields has no smaller key in the queue |
| BestFirst.Remove | src/modules/solvers.cpp:124 | `pq.pop()` takes out that entry and keeps the others in order |
| BestFirst.RemoveCount | src/modules/solvers.cpp:124 | popping removes exactly one copy of the entry |
| BestFirst.PopOptimal | src/modules/solvers.cpp:123-128 | a fresh entry at the top of the queue carries its cell's true least cost |
| BestFirst.RelaxDir | src/modules/solvers.cpp:132-142 | a neighbour's distance only ever falls; its parent changes to `u` exactly when its distance does, and an event is logged exactly then |
| BestFirst.Expand | src/modules/solvers.cpp:130-143 | relaxing all four directions keeps every invariant of the search |
| BestFirst.Round | src/modules/solvers.cpp:121-144 | one turn keeps the invariant and makes progress toward exhausting the queue; the search stops exactly when the top entry is the end carrying its current score, and then nothing else changes |
| BestFirst.Solve | src/modules/solvers.cpp:108-163 | every logged move is traversable and priced at the entered cell's cost; the path is non-empty exactly when the end is reachable and distinct from the start, and it is then a least-cost walk; an event is accepted exactly when its move is on the path |
| Solvers.SolveDijkstra | src/modules/solvers.cpp:108-163 | Dijkstra's search returns a shortest walk whenever the end is reachable |
| Solvers.SolveAStar | src/modules/solvers.cpp:165-229 | A* with the Manhattan heuristic returns a shortest walk whenever the end is reachable |
| Solvers.CheapestAgree | src/modules/solvers.cpp:108-229 | two least-cost walks between the same cells cost the same |
| Solvers.ShortestAgree | src/modules/solvers.cpp:61-229 | two shortest walks between the same cells have the same length |
| Solvers.ShortestPaths | src/modules/solvers.cpp:61-229 | BFS, Dijkstra's search and A* find paths of equal length, non-empty exactly when the end is reachable and distinct from the start |
| Playback.FlaggedMembers | src/new.cpp:556-563 | a move is drawn in a colour exactly when some event with that flag records it |
| Playback.Advance | src/new.cpp:556-564 | drawing one event moves the cursor one on and touches neither the log nor the state flags |
| Playback.AdvanceN | src/new.cpp:553-567 | drawing `n` events moves the cursor `n` on |
| Playback.AdvanceIgnoresClock | src/new.cpp:556-564 | the clock plays no part in what is drawn |
| Playback.ReplaySuccess | src/new.cpp:556-558 | outside depth-first mode the green segments are the accepted moves of the log, in order |
| Playback.ReplayFailure | src/new.cpp:559-563 | in every mode the red segments are the rejected moves of the log, in order |
| Playback.ReplayRetraces | src/new.cpp:559-563 | in depth-first mode each rejected move erases the green segment it takes back, so the green segments are the surviving stack |
| Playback.Finish | src/new.cpp:568-573 | a run whose cursor reached the end of the log is finished and idle; otherwise nothing changes |
| Playback.StepOnce | src/new.cpp:521-541 | the Step button as written: it draws one event and finishes the run only if that event was the last |
| Playback.EmptyLogNeverFinishes | src/new.cpp:521-541 | pressing Step on a running solve with an empty log changes nothing, so while step mode stays on the run never finishes |
| Playback.StepOnceFixed | src/new.cpp:521-541 | the corrected Step: the cursor moves one on, capped at the log's end, and the run is finished exactly when the cursor is at the end |
| Playback.FixedStepsFinish | src/new.cpp:521-541 | a press finishes the run exactly when at most one event remained |
| Playback.Due | src/new.cpp:553-554 | the number of events the clock lets through: one per full delay since the last drawn event, at most what is left |
| Playback.Drain | src/new.cpp:552-567 | the auto loop draws exactly the due events and moves the last event time on one delay per event |
| Playback.DrainCatchesUp | src/new.cpp:552-567 | afterwards the log is used up or less than one delay has passed since the last drawn event |
| Playback.Animate | src/new.cpp:550-574 | the auto branch keeps the run consistent, never moves the cursor back, and finishes exactly when the log is used up |
| Playback.Play | src/new.cpp:475-490 | Play starts a fresh run of the selected solver: the cursor at zero, nothing drawn, and the log's surviving (DFS) or path (other solvers) moves walk from start to end when the end is reachable |
| Playback.Frame | src/new.cpp:467-616 | one frame of the panel keeps the run consistent, and keeps the log's moves valid on the grid when they were; Play writes a log valid on the grid; only Play and Reset replace the log; auto mode catches up with the clock; Step draws one event, finishing the run only when that event was the last, and changes nothing once the log is used up; Reset empties the run; Clear erases the drawing |
| Playback.PlayOut | src/new.cpp:475-574 | a solve played to the end finishes; for DFS the green segments are a walk from start to end when reachable, otherwise green segments are path moves and red ones are not |
| Legacy.GenerateBacktracker | src/main.cpp:245-272 | the single-file backtracker starts at cell 0 and carves a spanning tree whose walls alone are open |
| Legacy.GeneratePrim | src/main.cpp:274-308 | the single-file Prim starts at the drawn column and row anywhere on the grid and carves a spanning tree whose walls alone are open |
| Legacy.Carve | src/main.cpp:755-761 | the selected single-file generator only removes walls, keeps them symmetric, places no obstacle, and leaves the maze connected whichever generator ran |
| Legacy.Candidates | src/main.cpp:339-344 | five on-grid candidates: the four corners, top left first, bottom right fourth, then the centre |
| Legacy.FirstAcceptable | src/main.cpp:347 | the retry loop stops at the first draw naming a candidate other than the start and not blocked |
| Legacy.PickStartEnd | src/main.cpp:337-349 | a pick exists exactly when some draw names an acceptable end; the start is the first draw's candidate, unblocked; the end is the first acceptable candidate, different from the start and unblocked |
| Legacy.PickSucceeds | src/main.cpp:345-347 | on an obstacle-free grid of two or more cells one retry always suffices for some draw |
| Legacy.Regenerate | src/main.cpp:755-763 | the regenerated maze is connected, symmetric and obstacle-free and its endpoints are distinct candidates; without a pick, every draw named the start |
| Legacy.RandomizeObstacles | src/main.cpp:351-358 | each cell other than the endpoints is blocked exactly when its coin flip comes up, the endpoints are open, and walls stay |
| Legacy.ZeroDensityClears | src/main.cpp:351-358 | a density of zero or less is `clearObstacles` |
| Legacy.FullDensityBlocks | src/main.cpp:351-358 | a density of one blocks every cell but the endpoints |
| Legacy.ClearUndoesObstacles | src/main.cpp:351-359 | `clearObstacles` after the pass gives the grid `clearObstacles` gives before it |
| Legacy.AtLeastOne | src/main.cpp:364 | `std::max(1, maxW)` is at least one and at least `maxW`, and one of the two |
| Legacy.RandomizeWeights | src/main.cpp:361-368 | with weights off every cell weighs one; on, every weight is in `[1, max(1, maxW)]`, the endpoints weigh one and other cells weigh their draw plus one |
| Legacy.LowMaximumIsUnit | src/main.cpp:361-368 | with a maximum of one or less every weight is one |
| Legacy.MoveCosts | src/main.cpp:472 | entering a cell costs its weight when weights are in use and one otherwise |
| Legacy.SolveWeighted | src/main.cpp:449-556 | the weighted Dijkstra or A* logs traversable moves priced by the entered cell, and returns a least-cost walk exactly when the end is reachable and distinct from the start |
| Legacy.WeightedPaths | src/main.cpp:449-556 | Dijkstra's search and A* on the same weighted maze find paths of the same total cost |

## Left out

- Rendering, textures, shaders, the window, the logging file and the ImGui
  widgets (`rendering.cpp`, `shaders.cpp`, `textures.cpp`, `logging.cpp`,
  the drawing parts of `new.cpp` and `main.cpp`): they only display state.
  The success and failure vertex buffers are modelled as lists of moves, four
  floats per move being one move.
- The random engine `std::mt19937`: draws are an explicit sequence, and
  the model does not state their distribution.
- Floating point: distances use `Dist` instead of `float` with `INF`; the
  obstacle density is `num / den`; the 0.7 and 0.6 thresholds are the
  exact fractions 7/10 and 6/10; the 0.3 chance of the block-all strategy
  is a boolean parameter `blockAll`; A*'s `fScore` is kept as
  `gScore + h` without rounding.
- The clock: `glfwGetTime` is an integer tick count `now`, read once per
  frame; the source reads it again after each drawn event, which only lets
  more events through in a slow frame. `animStartTime` and `animEndTime` are
  shown on screen only and are not modelled. The delay
  `baseDelay / speedMultiplier` is a positive number of ticks.
- The integer width: every address is below 65536 (the sliders allow at most
  60 by 60 cells), so the 16-bit packing is exact and no `int` overflows. The
  modular generators require at least 3 by 3 cells because
  `uniform_int_distribution(1, cols - 2)` needs it; the sliders start at 5.
- The block-all strategy of `randomizeObstacles` is modelled as written,
  and it does not always cut the start off from the end. On a 2 by 2 grid
  with every wall open, no cell lies on 70 per cent of the paths, so nothing
  is blocked. Obstacles.RandomizeObstacles only states which cells may be
  blocked, not that the end becomes unreachable.
- The return value of the recursive `dfs` lambda is discarded by the source
  and is exposed as `found` only for the contract.
- Legacy.PickStartEnd: the source's retry loop runs forever when no
  candidate qualifies. The model reads a finite draw sequence and returns
  `None` when the draws run out; `Legacy.PickSucceeds` shows one retry
  suffices on an obstacle-free grid.
- Legacy.SolveWeighted: requires every weight to be at least one, which
  `randomizeWeights` guarantees (`Legacy.RandomizeWeights`).
- The single-file build's `clearObstacles`, Kruskal generator, DFS, BFS and
  animation code are the same as the modular build's and share its model.
  Its backtracker and Prim run no post-pass.
- Playback.Frame: the Step button is `Playback.StepOnce` as written, so the
  panel keeps the stuck empty-log run of the second finding; the corrected
  `Playback.StepOnceFixed` and its property are stated on their own and not
  wired into the panel.
- Pausing leaves `animState` at 0, so the next Play click starts a new
  solve instead of resuming; a Pause click does not stop that frame's
  auto-mode drain. Both are modelled as written in `Playback.Frame`.
- Window resizing, the grid size sliders, the theme and the splash screen
  (`new.cpp` outside 467-616) are user interface only. The buttons at
  `new.cpp` 350-420 call `regenerateMaze`, `pickStartEnd`,
  `randomizeObstacles` and `clearObstacles` on the live grid, and are
  modelled by those operations. Only `regenerateMaze` resets the run, so
  scattering obstacles during a run can block cells the log moves through.
  `Playback.Frame` therefore does not assume the log matches the grid; it
  keeps a matching log matching, and a Play click makes it match.

## Findings

| source | as written | input that shows it | evidently intended | confidence | as-written member | corrected member |
|---|---|---|---|---|---|---|
| src/modules/maze_generation.cpp:490-501 | `regenerateMaze` runs the generator, whose post-passes cut corridors around `startCell` and `endCell`, before `pickStartEnd` chooses the new endpoints, so the corridors surround the previous maze's endpoints | at startup both endpoints are cell 0; an endpoint draw of 3 makes the bottom-right corner the start, and on a grid of at least 5 by 5 no corridor touches it | choose the endpoints first, so that both new endpoints get their seven corridors | not executed; medium | Generation.StaleCorridorsMissStart | Generation.RegenerateFixed |
| src/new.cpp:521-541 | the Step button's finish test sits inside `if (eventIndex < events.size())`, so it runs only when an event is drawn | a solve whose log is empty, for instance a start walled in by obstacles: in step mode the run stays in progress and, while step mode stays on, the panel never reaches Reset Run (unticking it lets lines 568-573 finish the run) | test for the end of the log on every press, as auto mode does at lines 568-573 | not executed; medium | Playback.EmptyLogNeverFinishes | Playback.StepOnceFixed |
