/** `solveDijkstra` and `solveAStar` of the modular build, which price every
    move at one, and the agreement of the three shortest-path solvers. */
module Solvers {
  import opened Grid
  import opened Search
  import opened Events
  import opened BreadthFirst
  import opened BestFirst

  /** Two least-cost walks between the same cells cost the same. */
  lemma CheapestAgree(g: Grid, w: seq<nat>, start: int, end: int, a: seq<Edge>, b: seq<Edge>)
    requires Wf(g) && |w| == |g.cells| && 0 <= start < |g.cells|
    requires EdgeWalk(g, a, start, end) && EdgeWalk(g, b, start, end)
    requires InRange(PathCells(start, a), |w|) && InRange(PathCells(start, b), |w|)
    requires NoCheaper(g, w, start, end, Cost(w, PathCells(start, a)))
    requires NoCheaper(g, w, start, end, Cost(w, PathCells(start, b)))
    ensures Cost(w, PathCells(start, a)) == Cost(w, PathCells(start, b))
  {
    EdgeWalkCells(g, a, start, end);
    EdgeWalkCells(g, b, start, end);
  }

  /** Two shortest edge walks between the same cells have the same length. */
  lemma ShortestAgree(g: Grid, start: int, end: int, a: seq<Edge>, b: seq<Edge>)
    requires Wf(g) && 0 <= start < |g.cells|
    requires EdgeWalk(g, a, start, end) && EdgeWalk(g, b, start, end)
    requires NoCheaper(g, Unit(|g.cells|), start, end, |a|) && NoCheaper(g, Unit(|g.cells|), start, end, |b|)
    ensures |a| == |b|
  {
    var w := Unit(|g.cells|);
    EdgeWalkCells(g, a, start, end);
    EdgeWalkCells(g, b, start, end);
    UnitCost(w, PathCells(start, a));
    UnitCost(w, PathCells(start, b));
  }

  /** `solveDijkstra`: the best-first search with every move costing one and
      no heuristic. Its path is a shortest walk by number of moves. */
  method SolveDijkstra(g: Grid, start: int, end: int) returns (events: seq<Event>, path: seq<Edge>)
    requires Wf(g) && 0 <= start < |g.cells| && 0 <= end < |g.cells|
    ensures forall k :: 0 <= k < |events| ==>
      0 <= events[k].u < |g.cells| && Step(g, events[k].u, events[k].v) && events[k].cost == 1 && events[k].v != start
    ensures forall k :: 0 <= k < |events| ==> (events[k].ok <==> (events[k].u, events[k].v) in path)
    ensures |path| > 0 <==> Reachable(g, start, end) && start != end
    ensures Reachable(g, start, end) ==> EdgeWalk(g, path, start, end) && NoCheaper(g, Unit(|g.cells|), start, end, |path|)
  {
    var w := Unit(|g.cells|);
    ZeroConsistent(g, w);
    events, path := Solve(g, w, Zero(|g.cells|), start, end);
    if Reachable(g, start, end) {
      UnitCost(w, PathCells(start, path));
    }
  }

  /** `solveAStar`: the best-first search with every move costing one,
      guided by the Manhattan distance to the end. Its path is a shortest walk
      by number of moves. */
  method SolveAStar(g: Grid, start: int, end: int) returns (events: seq<Event>, path: seq<Edge>)
    requires Wf(g) && 0 <= start < |g.cells| && 0 <= end < |g.cells|
    ensures forall k :: 0 <= k < |events| ==>
      0 <= events[k].u < |g.cells| && Step(g, events[k].u, events[k].v) && events[k].cost == 1 && events[k].v != start
    ensures forall k :: 0 <= k < |events| ==> (events[k].ok <==> (events[k].u, events[k].v) in path)
    ensures |path| > 0 <==> Reachable(g, start, end) && start != end
    ensures Reachable(g, start, end) ==> EdgeWalk(g, path, start, end) && NoCheaper(g, Unit(|g.cells|), start, end, |path|)
  {
    var w := Unit(|g.cells|);
    ManhattanConsistent(g, w, end);
    events, path := Solve(g, w, ManhattanTo(g, end), start, end);
    if Reachable(g, start, end) {
      UnitCost(w, PathCells(start, path));
    }
  }

  /** BFS, Dijkstra's search and A* on the same maze return paths of the
      same length. */
  method ShortestPaths(g: Grid, start: int, end: int) returns (bfs: seq<Edge>, dijkstra: seq<Edge>, astar: seq<Edge>)
    requires Wf(g) && 0 <= start < |g.cells| && 0 <= end < |g.cells|
    ensures |bfs| == |dijkstra| == |astar|
    ensures |bfs| > 0 <==> Reachable(g, start, end) && start != end
  {
    var events;
    events, bfs := SolveBFS(g, start, end);
    events, dijkstra := SolveDijkstra(g, start, end);
    events, astar := SolveAStar(g, start, end);
    if Reachable(g, start, end) {
      ShortestAgree(g, start, end, bfs, dijkstra);
      ShortestAgree(g, start, end, dijkstra, astar);
    }
  }
}
