/** `regenerateMaze`: run the selected generator, whose two post-passes cut
    loops and corridors around the start and end cells the program remembers,
    and then pick a new start and end. */
module Generation {
  import opened Grid
  import opened Carving
  import opened Choice
  import opened Backtracker
  import opened Prim
  import opened Kruskal
  import opened PostPass
  import opened Endpoints

  /** The three generators, in the order of the `genAlgo` selector. */
  datatype Algo = BacktrackerAlgo | PrimAlgo | KruskalAlgo

  /** `genAlgo == 0` selects the backtracker, `1` Prim, anything else Kruskal. */
  function AlgoOf(genAlgo: int): Algo {
    if genAlgo == 0 then BacktrackerAlgo else if genAlgo == 1 then PrimAlgo else KruskalAlgo
  }

  /** One draw sequence per randomised step. */
  datatype Streams = Streams(carve: seq<nat>, loops: seq<nat>, startPaths: seq<nat>, endPaths: seq<nat>, ends: seq<nat>)

  /** The selected generator before its post-passes: a fully walled grid with
      some walls opened, symmetric, without obstacles or visited marks, and
      connected: the backtracker and Prim carve a spanning tree from one
      cell, and Kruskal's scan leaves a single set. */
  method Carve(algo: Algo, cols: int, rows: int, draws: seq<nat>) returns (g: Grid)
    requires cols >= 3 && rows >= 3 && cols * rows <= 0x10000
    ensures Wf(g) && g.cols == cols && g.rows == rows
    ensures OpensOnly(NewGrid(cols, rows), g) && WallsSymmetric(g) && Unblocked(g)
    ensures Connected(g)
  {
    var start: int, order: seq<int>, tree: seq<Edge>;
    if algo == BacktrackerAlgo {
      g, start, order, tree := GenerateBacktracker(cols, rows, draws);
      TreeConnected(cols, rows, start, order, tree);
    } else if algo == PrimAlgo {
      g, start, order, tree := GeneratePrim(cols, rows, draws);
      TreeConnected(cols, rows, start, order, tree);
    } else {
      g, tree := GenerateKruskal(cols, rows, draws);
    }
    OpenAllOpensOnly(NewGrid(cols, rows), tree);
    OpensOnlyUnblocked(NewGrid(cols, rows), g);
  }

  /** A spanning tree's walls opened on a fresh grid give a connected maze. */
  lemma TreeConnected(cols: int, rows: int, start: int, order: seq<int>, tree: seq<Edge>)
    requires cols >= 1 && rows >= 1 && SpanningTree(NewGrid(cols, rows), start, order, tree)
    requires InBounds(NewGrid(cols, rows), tree) && WallsSymmetric(OpenAll(NewGrid(cols, rows), tree))
    ensures Connected(OpenAll(NewGrid(cols, rows), tree))
  {
    var g0 := NewGrid(cols, rows);
    var g := OpenAll(g0, tree);
    SpanningTreeConnects(g0, start, order, tree);
    OpenAllOpensOnly(g0, tree);
    OpensOnlyUnblocked(g0, g);
    forall i, j | 0 <= i < |g.cells| && 0 <= j < |g.cells| ensures Reachable(g, i, j) {
      ReachSymmetric(g, start, i);
      ReachTrans(g, i, start, j);
    }
  }

  /** `addMazeComplexity` then `ensureMultiplePathways` around `start` and
      `end`: the grid, the loop edges and the corridor edges. Only walls are
      removed; no loop leaves from either cell, and every corridor edge lies
      near one of them. */
  function PostPasses(base: Grid, start: nat, end: nat, s: Streams): (r: (Grid, seq<Edge>, seq<Edge>))
    requires Wf(base)
    ensures Wf(r.0) && OpensOnly(base, r.0)
    ensures WallsSymmetric(base) ==> WallsSymmetric(r.0)
    ensures |r.1| <= LoopCount(base) && forall k :: 0 <= k < |r.1| ==> Avoids(r.1[k], start, end)
    ensures forall k :: 0 <= k < |r.2| ==> NearEither(base, r.2[k], start, end)
  {
    var (mid, loops) := AddMazeComplexity(base, start, end, s.loops);
    var (g, corridors) := EnsureMultiplePathways(mid, start, end, s.startPaths, s.endPaths);
    OpenAllOpensOnly(base, loops);
    OpenAllOpensOnly(mid, corridors);
    OpensOnlyTransitive(base, mid, g);
    PassesSymmetric(base, loops, corridors);
    NearEitherMove(mid, base, corridors, start, end);
    (g, loops, corridors)
  }

  lemma PassesSymmetric(base: Grid, loops: seq<Edge>, corridors: seq<Edge>)
    requires Wf(base) && GridEdges(base, loops) && InBounds(base, loops)
    requires GridEdges(OpenAll(base, loops), corridors) && InBounds(OpenAll(base, loops), corridors)
    ensures WallsSymmetric(base) ==> WallsSymmetric(OpenAll(OpenAll(base, loops), corridors))
  {
    if WallsSymmetric(base) {
      OpenAllSymmetric(base, loops);
      OpenAllSymmetric(OpenAll(base, loops), corridors);
    }
  }

  /** Nearness depends only on the grid's shape. */
  lemma NearEitherMove(g: Grid, h: Grid, es: seq<Edge>, a: nat, b: nat)
    requires Wf(g) && Wf(h) && g.cols == h.cols && g.rows == h.rows
    requires forall k :: 0 <= k < |es| ==> NearEither(g, es[k], a, b)
    ensures forall k :: 0 <= k < |es| ==> NearEither(h, es[k], a, b)
  {
    assert |g.cells| == |h.cells|;
  }

  /** A grid of at least three columns and three rows has at least nine cells. */
  lemma NineCells(cols: int, rows: int)
    requires cols >= 3 && rows >= 3
    ensures cols * rows >= 9
  {
    MulMonotone(3, cols, rows);
    MulMonotone(3, rows, 3);
  }

  /** Removing walls keeps a maze connected. */
  lemma OpensOnlyConnected(g: Grid, h: Grid)
    requires Wf(g) && Wf(h) && OpensOnly(g, h) && Connected(g)
    ensures Connected(h)
  {
    forall i, j | 0 <= i < |h.cells| && 0 <= j < |h.cells| ensures Reachable(h, i, j) {
      OpensOnlyReachable(g, h, i, j);
    }
  }

  /** On a grid without obstacles, after the post-passes the start reaches the
      target of each of its corridors, and so does the end. */
  lemma PostPassesConnect(base: Grid, start: nat, end: nat, s: Streams)
    requires Wf(base) && Unblocked(base) && start < |base.cells| && end < |base.cells|
    ensures var g := PostPasses(base, start, end, s).0;
      && (forall t :: t in Targets(base, start, s.startPaths) ==> Reachable(g, start, IndexXY(t.0, t.1, base.cols, base.rows)))
      && (forall t :: t in Targets(base, end, s.endPaths) ==> Reachable(g, end, IndexXY(t.0, t.1, base.cols, base.rows)))
  {
    var mid := AddMazeComplexity(base, start, end, s.loops).0;
    OpenAllOpensOnly(base, AddMazeComplexity(base, start, end, s.loops).1);
    OpensOnlyUnblocked(base, mid);
    assert PostPasses(base, start, end, s).0 == EnsureMultiplePathways(mid, start, end, s.startPaths, s.endPaths).0;
    assert Targets(mid, start, s.startPaths) == Targets(base, start, s.startPaths);
    assert Targets(mid, end, s.endPaths) == Targets(base, end, s.endPaths);
    PathwaysConnect(mid, start, end, s.startPaths, s.endPaths);
  }

  /** Picking the end points leaves a grid without obstacles as it was. */
  lemma PickKeepsLayout(g: Grid, draws: seq<nat>)
    requires Wf(g) && g.cols * g.rows >= 2 && Unblocked(g)
    ensures PickStartEnd(g, draws).grid == g
  {
  }

  /** `regenerateMaze` as written. The post-passes run inside the generator,
      before `pickStartEnd`, so they protect and connect the start and end of
      the PREVIOUS maze, `oldStart` and `oldEnd`. */
  method Regenerate(algo: Algo, cols: int, rows: int, oldStart: nat, oldEnd: nat, s: Streams)
    returns (r: Ends, corridors: seq<Edge>)
    requires cols >= 3 && rows >= 3 && cols * rows <= 0x10000
    ensures Wf(r.grid) && r.grid.cols == cols && r.grid.rows == rows
    ensures (r.start, r.end) == ChooseEnds(cols, rows, s.ends)
    ensures WallsSymmetric(r.grid) && Unblocked(r.grid)
    ensures Connected(r.grid)
    ensures forall k :: 0 <= k < |corridors| ==> NearEither(r.grid, corridors[k], oldStart, oldEnd)
  {
    var base := Carve(algo, cols, rows, s.carve);
    var post := PostPasses(base, oldStart, oldEnd, s);
    corridors := post.2;
    NineCells(cols, rows);
    OpensOnlyUnblocked(base, post.0);
    r := PickStartEnd(post.0, s.ends);
    PickKeepsLayout(post.0, s.ends);
    NearEitherMove(base, post.0, corridors, oldStart, oldEnd);
    OpensOnlyConnected(base, post.0);
  }

  /** At program start the remembered start and end are both cell 0, and the
      first regeneration may draw the bottom-right corner as its start: no
      corridor edge then touches the new start. */
  lemma StaleCorridorsMissStart(g: Grid, e: Edge)
    requires Wf(g) && g.cols >= 5 && g.rows >= 5 && NearEither(g, e, 0, 0)
    ensures ChooseEnds(g.cols, g.rows, [3]).0 == g.cols * g.rows - 1
    ensures e.a != g.cols * g.rows - 1 && e.b != g.cols * g.rows - 1
  {
    var last := g.cols * g.rows - 1;
    assert Pick([3], 0, 4) == 3;
    EncodeDecode(g.cols - 1, g.rows - 1, g.cols, g.rows);
    assert IndexXY(g.cols - 1, g.rows - 1, g.cols, g.rows) == last;
    assert Col(last, g.cols) == g.cols - 1;
    EncodeDecode(0, 0, g.cols, g.rows);
  }

  /** `regenerateMaze` with the end points chosen first and the post-passes
      run around them: the new start and end each get seven corridors, the
      start reaches every corridor target and so does the end, and no loop
      leaves from either. */
  method RegenerateFixed(algo: Algo, cols: int, rows: int, s: Streams)
    returns (r: Ends, loops: seq<Edge>, corridors: seq<Edge>)
    requires cols >= 3 && rows >= 3 && cols * rows <= 0x10000
    ensures Wf(r.grid) && r.grid.cols == cols && r.grid.rows == rows
    ensures (r.start, r.end) == ChooseEnds(cols, rows, s.ends)
    ensures WallsSymmetric(r.grid) && Unblocked(r.grid)
    ensures Connected(r.grid)
    ensures forall k :: 0 <= k < |loops| ==> Avoids(loops[k], r.start, r.end)
    ensures forall k :: 0 <= k < |corridors| ==> NearEither(r.grid, corridors[k], r.start, r.end)
    ensures |Targets(r.grid, r.start, s.startPaths)| == MinPathways
    ensures |Targets(r.grid, r.end, s.endPaths)| == MinPathways
    ensures forall t :: t in Targets(r.grid, r.start, s.startPaths) ==> Reachable(r.grid, r.start, IndexXY(t.0, t.1, cols, rows))
    ensures forall t :: t in Targets(r.grid, r.end, s.endPaths) ==> Reachable(r.grid, r.end, IndexXY(t.0, t.1, cols, rows))
  {
    var ends := ChooseEnds(cols, rows, s.ends);
    var start, end := ends.0, ends.1;
    var base := Carve(algo, cols, rows, s.carve);
    var post := PostPasses(base, start, end, s);
    loops, corridors := post.1, post.2;
    NineCells(cols, rows);
    OpensOnlyUnblocked(base, post.0);
    r := PickStartEnd(post.0, s.ends);
    PickKeepsLayout(post.0, s.ends);
    NearEitherMove(base, post.0, corridors, start, end);
    OpensOnlyConnected(base, post.0);
    PostPassesConnect(base, start, end, s);
    assert Targets(r.grid, start, s.startPaths) == Targets(base, start, s.startPaths);
    assert Targets(r.grid, end, s.endPaths) == Targets(base, end, s.endPaths);
    SevenPathways(base, start, s.startPaths);
    SevenPathways(base, end, s.endPaths);
  }
}
