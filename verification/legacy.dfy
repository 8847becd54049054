/** The single-file build, `src/main.cpp`. Its grid, DSU, Kruskal generator,
    `clearObstacles`, depth-first and breadth-first searches match the modular
    build and share that model; this module holds what differs: a backtracker
    rooted at cell 0, Prim from an arbitrary cell, an endpoint pick over five
    candidates that retries until it succeeds, coin-flip obstacles, per-cell
    weights, and Dijkstra's search and A* that price moves by those weights. */
module Legacy {
  import opened Grid
  import opened Choice
  import opened Search
  import opened Events
  import Carving
  import Backtracker
  import Prim
  import Kruskal
  import Endpoints
  import Obstacles
  import Generation
  import BestFirst
  import Solvers

  // ---------------------------------------------------------------------
  // Generators
  // ---------------------------------------------------------------------

  /** `generateBacktracker`: the depth-first carve from cell 0, every draw
      spent on choosing a neighbour. It carves a spanning tree of the fresh
      grid. */
  method GenerateBacktracker(cols: int, rows: int, draws: seq<nat>)
    returns (g: Grid, order: seq<int>, tree: seq<Carving.Edge>)
    requires cols >= 1 && rows >= 1 && cols * rows <= 0x10000
    ensures Wf(g) && g.cols == cols && g.rows == rows
    ensures Carving.SpanningTree(NewGrid(cols, rows), 0, order, tree)
    ensures Carving.InBounds(NewGrid(cols, rows), tree) && g == Carving.OpenAll(NewGrid(cols, rows), tree)
    ensures WallsSymmetric(g)
  {
    g, order, tree := Backtracker.CarveAll(cols, rows, draws, 0, 0);
    Carving.CarveDone(cols, rows, g, 0, order, tree);
    g := ClearGridVisited(g);
    Carving.ClearedIsTree(cols, rows, g, order, tree);
    Carving.TreeSymmetric(NewGrid(cols, rows), tree);
  }

  /** `generatePrim`: draws 0 and 1 choose the start column and row anywhere
      on the grid, the later draws pick frontier edges. */
  method GeneratePrim(cols: int, rows: int, draws: seq<nat>)
    returns (g: Grid, start: int, order: seq<int>, tree: seq<Carving.Edge>)
    requires cols >= 1 && rows >= 1
    ensures Wf(g) && g.cols == cols && g.rows == rows
    ensures start == Pick(draws, 0, cols) + Pick(draws, 1, rows) * cols && 0 <= start < cols * rows
    ensures Carving.SpanningTree(NewGrid(cols, rows), start, order, tree)
    ensures Carving.InBounds(NewGrid(cols, rows), tree) && g == Carving.OpenAll(NewGrid(cols, rows), tree)
    ensures WallsSymmetric(g)
  {
    start := IndexXY(Pick(draws, 0, cols), Pick(draws, 1, rows), cols, rows);
    g, order, tree := Prim.GrowAll(cols, rows, draws, start);
    Carving.CarveDone(cols, rows, g, start, order, tree);
    g := ClearGridVisited(g);
    Carving.ClearedIsTree(cols, rows, g, order, tree);
    Carving.TreeSymmetric(NewGrid(cols, rows), tree);
  }

  /** The selected generator: a fully walled grid with some walls opened,
      symmetric, without obstacles and connected. No post-pass runs in this
      build. */
  method Carve(algo: Generation.Algo, cols: int, rows: int, draws: seq<nat>) returns (g: Grid)
    requires cols >= 1 && rows >= 1 && cols * rows <= 0x10000
    ensures Wf(g) && g.cols == cols && g.rows == rows
    ensures OpensOnly(NewGrid(cols, rows), g) && WallsSymmetric(g) && Unblocked(g)
    ensures Connected(g)
  {
    var start: int, order: seq<int>, tree: seq<Carving.Edge>;
    if algo == Generation.BacktrackerAlgo {
      g, order, tree := GenerateBacktracker(cols, rows, draws);
      Generation.TreeConnected(cols, rows, 0, order, tree);
    } else if algo == Generation.PrimAlgo {
      g, start, order, tree := GeneratePrim(cols, rows, draws);
      Generation.TreeConnected(cols, rows, start, order, tree);
    } else {
      g, tree := Kruskal.GenerateKruskal(cols, rows, draws);
    }
    Carving.OpenAllOpensOnly(NewGrid(cols, rows), tree);
    OpensOnlyUnblocked(NewGrid(cols, rows), g);
  }

  // ---------------------------------------------------------------------
  // Start and end
  // ---------------------------------------------------------------------

  /** The five candidate cells: the four corners, then the centre cell. */
  function Candidates(cols: int, rows: int): (c: seq<int>)
    requires cols >= 1 && rows >= 1
    ensures |c| == 5 && forall k :: 0 <= k < 5 ==> 0 <= c[k] < cols * rows
    ensures c[0] == 0 && c[3] == cols * rows - 1
  {
    Endpoints.Corners(cols, rows) + [IndexXY(cols / 2, rows / 2, cols, rows)]
  }

  /** Draw `k` names a candidate the end may take: not the start, not
      blocked. */
  predicate Acceptable(g: Grid, c: seq<int>, start: int, draws: seq<nat>, k: nat)
    requires Wf(g) && |c| == 5 && forall i :: 0 <= i < 5 ==> 0 <= c[i] < |g.cells|
  {
    var e := c[Pick(draws, k, 5)];
    e != start && !g.cells[e].blocked
  }

  /** The `do ... while` loop choosing the end: the number of the first draw
      from `k` on that names an acceptable candidate, or `None` when the
      draws run out first. */
  function FirstAcceptable(g: Grid, c: seq<int>, start: int, draws: seq<nat>, k: nat): (r: Option<nat>)
    requires Wf(g) && |c| == 5 && forall i :: 0 <= i < 5 ==> 0 <= c[i] < |g.cells|
    ensures r.Some? ==> k <= r.value < |draws| && Acceptable(g, c, start, draws, r.value)
    ensures r.Some? ==> forall j :: k <= j < r.value ==> !Acceptable(g, c, start, draws, j)
    ensures r.None? ==> forall j :: k <= j < |draws| ==> !Acceptable(g, c, start, draws, j)
    decreases |draws| - k
  {
    if k >= |draws| then None
    else if Acceptable(g, c, start, draws, k) then Some(k)
    else FirstAcceptable(g, c, start, draws, k + 1)
  }

  /** `e` is an outcome of the pick on `g`: the start is the candidate draw
      0 names, the end another unblocked candidate, and only the start's
      obstacle flag may have changed. */
  ghost predicate Picked(g: Grid, draws: seq<nat>, e: Endpoints.Ends)
    requires Wf(g)
  {
    var c := Candidates(g.cols, g.rows);
    && e.start == c[Pick(draws, 0, 5)] && e.end in c && e.end != e.start
    && Wf(e.grid) && Obstacles.Layout(g, e.grid)
    && !e.grid.cells[e.start].blocked && !e.grid.cells[e.end].blocked
    && forall i :: 0 <= i < |g.cells| && i != e.start ==> e.grid.cells[i] == g.cells[i]
  }

  /** `pickStartEnd` of the single-file build. Draw 0 picks the start among
      the candidates; draws 1, 2, ... are tried in turn for the end until one
      names a candidate that is neither the start nor blocked; the start is
      then unblocked. The source loops for ever when no candidate qualifies
      (a one-cell grid, or every other candidate blocked); here the draws are
      finite and running out gives `None`. */
  function PickStartEnd(g: Grid, draws: seq<nat>): (r: Option<Endpoints.Ends>)
    requires Wf(g)
    ensures r.Some? ==> Picked(g, draws, r.value)
    ensures r.Some? <==> exists k :: (1 <= k < |draws| &&
      Acceptable(g, Candidates(g.cols, g.rows), Candidates(g.cols, g.rows)[Pick(draws, 0, 5)], draws, k))
    ensures r.Some? ==> exists k :: (1 <= k < |draws| && r.value.end == Candidates(g.cols, g.rows)[Pick(draws, k, 5)] &&
      forall j :: 1 <= j < k ==> !Acceptable(g, Candidates(g.cols, g.rows), r.value.start, draws, j))
  {
    var c := Candidates(g.cols, g.rows);
    var start := c[Pick(draws, 0, 5)];
    var k := FirstAcceptable(g, c, start, draws, 1);
    if k.None? then None
    else
      var r := Endpoints.Unblock(g, start);
      assert Obstacles.Layout(g, r) by {
        forall i, d: Dir | 0 <= i < |g.cells|
          ensures Wall(r.cells[i], d) == Wall(g.cells[i], d) && r.cells[i].visited == g.cells[i].visited
        {
          if i != start {
            assert r.cells[i] == g.cells[i];
          }
        }
      }
      Some(Endpoints.Ends(r, start, c[Pick(draws, k.value, 5)]))
  }

  /** On a grid of two or more cells without obstacles the pick never needs
      more than one retry: whatever the start, some second draw succeeds. */
  lemma PickSucceeds(g: Grid, first: nat)
    requires Wf(g) && |g.cells| >= 2 && Unblocked(g)
    ensures exists j: nat :: j < 5 && PickStartEnd(g, [first, j]).Some?
  {
    var c := Candidates(g.cols, g.rows);
    var j: nat := if c[first % 5] == 0 then 3 else 0;
    var draws := [first, j];
    assert Pick(draws, 0, 5) == first % 5 && Pick(draws, 1, 5) == j;
    assert Acceptable(g, c, c[first % 5], draws, 1);
    assert PickStartEnd(g, draws).Some?;
  }

  /** `regenerateMaze`: the selected generator, then the endpoint pick. */
  method Regenerate(algo: Generation.Algo, cols: int, rows: int, carve: seq<nat>, ends: seq<nat>)
    returns (g: Grid, r: Option<Endpoints.Ends>)
    requires cols >= 1 && rows >= 1 && cols * rows <= 0x10000
    ensures Wf(g) && g.cols == cols && g.rows == rows && WallsSymmetric(g) && Unblocked(g)
    ensures Connected(g)
    ensures r.Some? ==> r.value.grid == g && r.value.start != r.value.end
    ensures r.Some? ==> r.value.start in Candidates(cols, rows) && r.value.end in Candidates(cols, rows)
    ensures r.None? ==> forall k :: 1 <= k < |ends| ==>
      Candidates(cols, rows)[Pick(ends, k, 5)] == Candidates(cols, rows)[Pick(ends, 0, 5)]
  {
    g := Carve(algo, cols, rows, carve);
    r := PickStartEnd(g, ends);
    if r.None? {
      var c := Candidates(cols, rows);
      forall k | 1 <= k < |ends| ensures c[Pick(ends, k, 5)] == c[Pick(ends, 0, 5)] {
        assert !Acceptable(g, c, c[Pick(ends, 0, 5)], ends, k);
      }
    } else {
      var h := r.value.grid;
      forall i | 0 <= i < |g.cells| ensures h.cells[i] == g.cells[i] {
        if i == r.value.start {
          Carving.SameCell(h.cells[i], g.cells[i]);
        }
      }
    }
  }

  // ---------------------------------------------------------------------
  // Obstacles and weights
  // ---------------------------------------------------------------------

  /** The `bernoulli_distribution` with probability `num / den`: draw `i`,
      reduced into `[0, den)`, comes up below `num`. */
  predicate Flip(draws: seq<nat>, i: nat, num: int, den: int)
    requires den >= 1
  {
    Pick(draws, i, den) < num
  }

  /** `randomizeObstacles`: every cell is blocked or cleared by its own coin
      flip, then the start and end are cleared. */
  function RandomizeObstacles(g: Grid, start: int, end: int, draws: seq<nat>, num: int, den: int): (r: Grid)
    requires Wf(g) && 0 <= start < |g.cells| && 0 <= end < |g.cells| && den >= 1
    ensures Wf(r) && Obstacles.Layout(g, r)
    ensures !r.cells[start].blocked && !r.cells[end].blocked
    ensures forall i :: 0 <= i < |g.cells| && i != start && i != end ==> r.cells[i].blocked == Flip(draws, i, num, den)
  {
    var flipped := g.(cells := seq(|g.cells|, i requires 0 <= i < |g.cells| => g.cells[i].(blocked := Flip(draws, i, num, den))));
    var r := Endpoints.Unblock(Endpoints.Unblock(flipped, start), end);
    assert Obstacles.Layout(g, r) by {
      forall i, d: Dir | 0 <= i < |g.cells|
        ensures Wall(r.cells[i], d) == Wall(g.cells[i], d) && r.cells[i].visited == g.cells[i].visited
      {
        assert Wall(flipped.cells[i], d) == Wall(g.cells[i], d);
      }
    }
    r
  }

  /** A density of zero blocks nothing: the pass then equals
      `clearObstacles`. */
  lemma ZeroDensityClears(g: Grid, start: int, end: int, draws: seq<nat>, num: int, den: int)
    requires Wf(g) && 0 <= start < |g.cells| && 0 <= end < |g.cells| && den >= 1 && num <= 0
    ensures RandomizeObstacles(g, start, end, draws, num, den) == Obstacles.ClearObstacles(g)
  {
    var r := RandomizeObstacles(g, start, end, draws, num, den);
    var c := Obstacles.ClearObstacles(g);
    forall i | 0 <= i < |g.cells| ensures r.cells[i] == c.cells[i] {
      Carving.SameCell(r.cells[i], c.cells[i]);
    }
  }

  /** A density of one blocks every cell but the start and end. */
  lemma FullDensityBlocks(g: Grid, start: int, end: int, draws: seq<nat>, num: int, den: int)
    requires Wf(g) && 0 <= start < |g.cells| && 0 <= end < |g.cells| && den >= 1 && num >= den
    ensures forall i :: 0 <= i < |g.cells| ==>
      (RandomizeObstacles(g, start, end, draws, num, den).cells[i].blocked <==> i != start && i != end)
  {
  }

  /** Clearing after the pass undoes it. */
  lemma ClearUndoesObstacles(g: Grid, start: int, end: int, draws: seq<nat>, num: int, den: int)
    requires Wf(g) && 0 <= start < |g.cells| && 0 <= end < |g.cells| && den >= 1
    ensures Obstacles.ClearObstacles(RandomizeObstacles(g, start, end, draws, num, den)) == Obstacles.ClearObstacles(g)
  {
    var r := RandomizeObstacles(g, start, end, draws, num, den);
    var a := Obstacles.ClearObstacles(r);
    var c := Obstacles.ClearObstacles(g);
    forall i | 0 <= i < |g.cells| ensures a.cells[i] == c.cells[i] {
      Carving.SameCell(a.cells[i], c.cells[i]);
    }
  }

  /** `std::max(1, maxW)`. */
  function AtLeastOne(x: int): (r: nat)
    ensures r >= 1 && r >= x && (r == 1 || r == x)
  {
    if x < 1 then 1 else x
  }

  /** `randomizeWeights`: switched off, every cell costs one; switched on,
      cell `i` costs draw `i` reduced into `[1, max(1, maxW)]`, and the start
      and end cost one. */
  function RandomizeWeights(n: nat, start: int, end: int, enable: bool, maxW: int, draws: seq<nat>): (w: seq<nat>)
    requires 0 <= start < n && 0 <= end < n
    ensures |w| == n && forall i :: 0 <= i < n ==> 1 <= w[i] <= AtLeastOne(maxW)
    ensures !enable ==> forall i :: 0 <= i < n ==> w[i] == 1
    ensures enable ==> w[start] == 1 && w[end] == 1
    ensures enable ==> forall i :: 0 <= i < n && i != start && i != end ==> w[i] == 1 + Pick(draws, i, AtLeastOne(maxW))
  {
    if !enable then Unit(n)
    else
      var m := AtLeastOne(maxW);
      seq(n, i requires 0 <= i < n => 1 + Pick(draws, i, m))[start := 1][end := 1]
  }

  /** With a maximum of one or less, switching weights on changes nothing:
      every cell still costs one, as the modular build prices all moves. */
  lemma LowMaximumIsUnit(n: nat, start: int, end: int, maxW: int, draws: seq<nat>)
    requires 0 <= start < n && 0 <= end < n && maxW <= 1
    ensures RandomizeWeights(n, start, end, true, maxW, draws) == Unit(n)
  {
  }

  // ---------------------------------------------------------------------
  // Weighted solvers
  // ---------------------------------------------------------------------

  /** What entering each cell costs: its weight when weights are in use, one
      otherwise. */
  function MoveCosts(weights: seq<nat>, useWeights: bool): (w: seq<nat>)
    ensures |w| == |weights|
    ensures forall i :: 0 <= i < |w| ==> w[i] == if useWeights then weights[i] else 1
  {
    if useWeights then weights else Unit(|weights|)
  }

  /** Every cell weight is at least one, as both weight assignments keep. */
  ghost predicate Weighted(g: Grid, weights: seq<nat>)
    requires Wf(g)
  {
    |weights| == |g.cells| && forall i :: 0 <= i < |weights| ==> weights[i] >= 1
  }

  /** `solveDijkstra` (no heuristic) or `solveAStar` (Manhattan distance to
      the end) of the single-file build. Each event carries the cost of the
      move it records; the path, when the end is reachable, is a walk that no
      walk undercuts in total cost. */
  method SolveWeighted(g: Grid, weights: seq<nat>, useWeights: bool, astar: bool, start: int, end: int)
    returns (events: seq<Event>, path: seq<Edge>)
    requires Wf(g) && Weighted(g, weights) && 0 <= start < |g.cells| && 0 <= end < |g.cells|
    ensures forall k :: 0 <= k < |events| ==>
      0 <= events[k].u < |g.cells| && Step(g, events[k].u, events[k].v) && 0 <= events[k].v < |g.cells|
      && events[k].cost == MoveCosts(weights, useWeights)[events[k].v] && events[k].v != start
    ensures forall k :: 0 <= k < |events| ==> (events[k].ok <==> (events[k].u, events[k].v) in path)
    ensures |path| > 0 <==> Reachable(g, start, end) && start != end
    ensures Reachable(g, start, end) ==>
      var w := MoveCosts(weights, useWeights);
      EdgeWalk(g, path, start, end) && InRange(PathCells(start, path), |w|)
      && NoCheaper(g, w, start, end, Cost(w, PathCells(start, path)))
  {
    var w := MoveCosts(weights, useWeights);
    var h: seq<nat>;
    if astar {
      ManhattanConsistent(g, w, end);
      h := ManhattanTo(g, end);
    } else {
      ZeroConsistent(g, w);
      h := Zero(|g.cells|);
    }
    events, path := BestFirst.Solve(g, w, h, start, end);
  }

  /** Dijkstra's search and A* on the same weighted maze return paths of the
      same total cost. */
  method WeightedPaths(g: Grid, weights: seq<nat>, useWeights: bool, start: int, end: int)
    returns (dijkstra: seq<Edge>, astar: seq<Edge>)
    requires Wf(g) && Weighted(g, weights) && 0 <= start < |g.cells| && 0 <= end < |g.cells|
    ensures |dijkstra| > 0 <==> |astar| > 0
    ensures Reachable(g, start, end) ==>
      var w := MoveCosts(weights, useWeights);
      InRange(PathCells(start, dijkstra), |w|) && InRange(PathCells(start, astar), |w|)
      && Cost(w, PathCells(start, dijkstra)) == Cost(w, PathCells(start, astar))
  {
    var events;
    events, dijkstra := SolveWeighted(g, weights, useWeights, false, start, end);
    events, astar := SolveWeighted(g, weights, useWeights, true, start, end);
    if Reachable(g, start, end) {
      Solvers.CheapestAgree(g, MoveCosts(weights, useWeights), start, end, dijkstra, astar);
    }
  }
}
