/** Randomized Prim: grow the maze from a random interior cell by repeatedly
    drawing an edge from the frontier, the edges from visited cells to cells
    that were unvisited when the edge was added. */
module Prim {
  import opened Grid
  import opened Carving
  import opened Choice

  /** `addFrontier`: the edges from `i` to its on-grid unvisited neighbours,
      north, east, south, west. */
  function AddFrontier(g: Grid, i: int): (r: seq<Edge>)
    requires Wf(g) && 0 <= i < |g.cells|
    ensures forall k :: 0 <= k < |r| ==> r[k].a == i && GridEdge(g, r[k])
    ensures forall d: Dir :: Unvisited(g, i, d) ==> Edge(i, Neighbor(g, i, d), d) in r
  {
    FrontierFrom(g, i, 0)
  }

  function FrontierFrom(g: Grid, i: int, d: nat): (r: seq<Edge>)
    requires Wf(g) && 0 <= i < |g.cells| && d <= 4
    ensures forall k :: 0 <= k < |r| ==> r[k].a == i && GridEdge(g, r[k])
    ensures forall e: Dir :: d <= e && Unvisited(g, i, e) ==> Edge(i, Neighbor(g, i, e), e) in r
    decreases 4 - d
  {
    if d == 4 then []
    else
      var rest := FrontierFrom(g, i, d + 1);
      if Unvisited(g, i, d) then [Edge(i, Neighbor(g, i, d), d)] + rest else rest
  }

  /** `frontier[k] = frontier.back(); frontier.pop_back()`: drop entry `k` by
      moving the last entry into its place. */
  function SwapRemove<T>(xs: seq<T>, k: nat): (r: seq<T>)
    requires k < |xs|
    ensures |r| == |xs| - 1
    ensures multiset(r) == multiset(xs) - multiset{xs[k]}
  {
    var last := |xs| - 1;
    var ys := xs[k := xs[last]];
    assert xs == xs[..last] + [xs[last]];
    if k == last then
      assert ys[..last] == xs[..last];
      ys[..last]
    else
      assert ys == ys[..last] + [ys[last]];
      assert multiset(ys) == multiset(xs) - multiset{xs[k]} + multiset{xs[last]};
      ys[..last]
  }

  /** Everything but the removed entry is still there. */
  lemma SwapRemoveKeeps<T>(xs: seq<T>, k: nat, x: T)
    requires k < |xs| && x in xs && x != xs[k]
    ensures x in SwapRemove(xs, k)
  {
    assert x in multiset(xs);
    assert x in multiset(SwapRemove(xs, k));
  }

  /** What holds between iterations: the carve is a tree grown from the
      start; every frontier edge leaves a visited cell; and every visited cell
      has a frontier edge to each of its unvisited neighbours. */
  ghost predicate PrimInv(cols: int, rows: int, g: Grid, start: int, frontier: seq<Edge>,
                          order: seq<int>, tree: seq<Edge>)
  {
    && TreePart(cols, rows, g, start, order, tree)
    && |order| <= cols * rows
    && FrontierPart(g, frontier, order)
  }

  ghost predicate FrontierPart(g: Grid, frontier: seq<Edge>, order: seq<int>)
    requires Wf(g)
  {
    && (forall i :: 0 <= i < |g.cells| ==> (g.cells[i].visited <==> i in order))
    && (forall k :: 0 <= k < |frontier| ==> GridEdge(g, frontier[k]) && frontier[k].a in order)
    && (forall v, d: Dir :: 0 <= v < |g.cells| && v in order && Unvisited(g, v, d) ==>
          Edge(v, Neighbor(g, v, d), d) in frontier)
  }

  /** `generatePrim` before its post-passes: the carve starts at a drawn
      interior cell and runs until the frontier is empty, by which time every
      cell is visited; the carved edges form a spanning tree grown from the
      start, and clearing the visited flags leaves exactly its walls open. */
  method GeneratePrim(cols: int, rows: int, draws: seq<nat>)
    returns (g: Grid, start: int, order: seq<int>, tree: seq<Edge>)
    requires cols >= 3 && rows >= 3
    ensures Wf(g) && g.cols == cols && g.rows == rows
    ensures 0 <= start < cols * rows
    ensures 1 <= Col(start, cols) <= cols - 2 && 1 <= Row(start, cols) <= rows - 2
    ensures SpanningTree(NewGrid(cols, rows), start, order, tree)
    ensures InBounds(NewGrid(cols, rows), tree) && g == OpenAll(NewGrid(cols, rows), tree)
    ensures WallsSymmetric(g)
  {
    start := InteriorStart(cols, rows, draws);
    g, order, tree := GrowAll(cols, rows, draws, start);
    CarveDone(cols, rows, g, start, order, tree);
    g := ClearGridVisited(g);
    ClearedIsTree(cols, rows, g, order, tree);
    TreeSymmetric(NewGrid(cols, rows), tree);
  }

  /** The frontier loop from `start`. */
  method GrowAll(cols: int, rows: int, draws: seq<nat>, start: int) returns (g: Grid, order: seq<int>, tree: seq<Edge>)
    requires cols >= 1 && rows >= 1 && 0 <= start < cols * rows
    ensures TreePart(cols, rows, g, start, order, tree) && |order| >= cols * rows
  {
    g := SetVisited(NewGrid(cols, rows), start);
    var frontier := AddFrontier(g, start);
    var k := 2;
    order, tree := [start], [];
    GrowInit(cols, rows, g, start);
    while frontier != []
      invariant PrimInv(cols, rows, g, start, frontier, order, tree)
      decreases cols * rows - |order|, |frontier|
    {
      k, g, frontier, order, tree := GrowStep(cols, rows, draws, k, g, start, frontier, order, tree);
    }
    GrowDone(cols, rows, g, start, order, tree);
  }

  /** One iteration: draw a frontier entry and swap-remove it; when its far
      cell is still unvisited, open the wall pair, visit the cell and add its
      own frontier. */
  method GrowStep(cols: int, rows: int, draws: seq<nat>, k: nat, g: Grid, start: int, frontier: seq<Edge>,
                  order: seq<int>, tree: seq<Edge>)
    returns (k': nat, g': Grid, frontier': seq<Edge>, order': seq<int>, tree': seq<Edge>)
    requires PrimInv(cols, rows, g, start, frontier, order, tree) && frontier != []
    ensures PrimInv(cols, rows, g', start, frontier', order', tree')
    ensures |order'| == |order| + 1 || (order' == order && |frontier'| < |frontier|)
    ensures k' == k + 1
    ensures var j := Pick(draws, k, |frontier|); var e := frontier[j];
      && (g.cells[e.b].visited ==> g' == g && order' == order && tree' == tree && frontier' == SwapRemove(frontier, j))
      && (!g.cells[e.b].visited ==>
            && order' == order + [e.b] && tree' == tree + [e]
            && frontier' == SwapRemove(frontier, j) + AddFrontier(g', e.b))
  {
    var j := Pick(draws, k, |frontier|);
    var e := frontier[j];
    var rest := SwapRemove(frontier, j);
    k' := k + 1;
    if g.cells[e.b].visited {
      g', frontier', order', tree' := g, rest, order, tree;
      GrowSkip(cols, rows, g, start, frontier, order, tree, j);
    } else {
      g' := SetVisited(RemoveWallsAB(g, e.a, e.b, e.w), e.b);
      frontier', order', tree' := rest + AddFrontier(g', e.b), order + [e.b], tree + [e];
      GrowCarve(cols, rows, g, start, frontier, order, tree, j, e, g');
    }
  }

  lemma GrowInit(cols: int, rows: int, g: Grid, start: int)
    requires cols >= 1 && rows >= 1 && 0 <= start < cols * rows
    requires g == SetVisited(NewGrid(cols, rows), start)
    ensures PrimInv(cols, rows, g, start, AddFrontier(g, start), [start], [])
  {
    var g0 := NewGrid(cols, rows);
    assert SameWalls(g, OpenAll(g0, []));
    assert forall i :: 0 <= i < |g.cells| ==> (g.cells[i].visited <==> i in [start]);
  }

  /** Dropping an edge whose far cell is already visited keeps the invariant. */
  lemma GrowSkip(cols: int, rows: int, g: Grid, start: int, frontier: seq<Edge>, order: seq<int>,
                 tree: seq<Edge>, j: nat)
    requires PrimInv(cols, rows, g, start, frontier, order, tree) && j < |frontier|
    requires g.cells[frontier[j].b].visited
    ensures PrimInv(cols, rows, g, start, SwapRemove(frontier, j), order, tree)
  {
    SkipFrontier(g, frontier, order, j);
  }

  lemma SkipFrontier(g: Grid, frontier: seq<Edge>, order: seq<int>, j: nat)
    requires Wf(g) && FrontierPart(g, frontier, order) && j < |frontier|
    requires 0 <= frontier[j].b < |g.cells| && g.cells[frontier[j].b].visited
    ensures FrontierPart(g, SwapRemove(frontier, j), order)
  {
    var rest := SwapRemove(frontier, j);
    forall k | 0 <= k < |rest| ensures GridEdge(g, rest[k]) && rest[k].a in order {
      assert rest[k] in multiset(frontier);
    }
    forall v, d: Dir | 0 <= v < |g.cells| && v in order && Unvisited(g, v, d)
      ensures Edge(v, Neighbor(g, v, d), d) in rest
    {
      SwapRemoveKeeps(frontier, j, Edge(v, Neighbor(g, v, d), d));
    }
  }

  /** Carving the drawn edge to an unvisited cell keeps the invariant. */
  lemma GrowCarve(cols: int, rows: int, g: Grid, start: int, frontier: seq<Edge>, order: seq<int>,
                  tree: seq<Edge>, j: nat, e: Edge, g': Grid)
    requires PrimInv(cols, rows, g, start, frontier, order, tree) && j < |frontier| && e == frontier[j]
    requires !g.cells[e.b].visited && g' == SetVisited(RemoveWallsAB(g, e.a, e.b, e.w), e.b)
    ensures PrimInv(cols, rows, g', start, SwapRemove(frontier, j) + AddFrontier(g', e.b), order + [e.b], tree + [e])
  {
    GrowCarveTree(cols, rows, g, start, frontier, order, tree, j, e, g');
    GrowCarveFrontier(cols, rows, g, start, frontier, order, tree, j, e, g');
    PackPrimInv(cols, rows, g', start, SwapRemove(frontier, j) + AddFrontier(g', e.b), order + [e.b], tree + [e]);
  }

  lemma GrowCarveTree(cols: int, rows: int, g: Grid, start: int, frontier: seq<Edge>, order: seq<int>,
                      tree: seq<Edge>, j: nat, e: Edge, g': Grid)
    requires PrimInv(cols, rows, g, start, frontier, order, tree) && j < |frontier| && e == frontier[j]
    requires !g.cells[e.b].visited && g' == SetVisited(RemoveWallsAB(g, e.a, e.b, e.w), e.b)
    ensures TreePart(cols, rows, g', start, order + [e.b], tree + [e]) && |order + [e.b]| <= cols * rows
  {
    CarveTree(cols, rows, g, start, order, tree, e);
    TreePartBound(cols, rows, g', start, order + [e.b], tree + [e]);
  }

  lemma GrowCarveFrontier(cols: int, rows: int, g: Grid, start: int, frontier: seq<Edge>, order: seq<int>,
                          tree: seq<Edge>, j: nat, e: Edge, g': Grid)
    requires PrimInv(cols, rows, g, start, frontier, order, tree) && j < |frontier| && e == frontier[j]
    requires !g.cells[e.b].visited && g' == SetVisited(RemoveWallsAB(g, e.a, e.b, e.w), e.b)
    ensures Wf(g') && FrontierPart(g', SwapRemove(frontier, j) + AddFrontier(g', e.b), order + [e.b])
  {
    CarveFrontier(g, g', frontier, order, j);
  }

  lemma PackPrimInv(cols: int, rows: int, g: Grid, start: int, frontier: seq<Edge>, order: seq<int>, tree: seq<Edge>)
    requires TreePart(cols, rows, g, start, order, tree) && |order| <= cols * rows
    requires FrontierPart(g, frontier, order)
    ensures PrimInv(cols, rows, g, start, frontier, order, tree)
  {
  }

  lemma CarveTree(cols: int, rows: int, g: Grid, start: int, order: seq<int>, tree: seq<Edge>, e: Edge)
    requires TreePart(cols, rows, g, start, order, tree)
    requires forall i :: 0 <= i < |g.cells| ==> (g.cells[i].visited <==> i in order)
    requires GridEdge(g, e) && e.a in order && !g.cells[e.b].visited
    ensures TreePart(cols, rows, SetVisited(RemoveWallsAB(g, e.a, e.b, e.w), e.b), start, order + [e.b], tree + [e])
  {
    var g0 := NewGrid(cols, rows);
    assert e.b !in order;
    assert GridEdge(g0, e);
    GrowTree(g0, start, order, tree, e);
    TreeAppend(g0, tree, e);
    RemoveSameWalls(g, OpenAll(g0, tree), e.a, e.b, e.w);
  }

  lemma CarveFrontier(g: Grid, g': Grid, frontier: seq<Edge>, order: seq<int>, j: nat)
    requires Wf(g) && FrontierPart(g, frontier, order) && j < |frontier|
    requires 0 <= frontier[j].b < |g.cells| && !g.cells[frontier[j].b].visited
    requires Wf(g') && g'.cols == g.cols && |g'.cells| == |g.cells|
    requires forall i :: 0 <= i < |g.cells| ==> g'.cells[i].visited == (g.cells[i].visited || i == frontier[j].b)
    ensures FrontierPart(g', SwapRemove(frontier, j) + AddFrontier(g', frontier[j].b), order + [frontier[j].b])
  {
    var b := frontier[j].b;
    var rest, added := SwapRemove(frontier, j), AddFrontier(g', b);
    RestEdges(g, g', frontier, order, j);
    JoinEdges(g', rest, added, order, b);
    forall v, d: Dir | 0 <= v < |g'.cells| && v in order + [b] && Unvisited(g', v, d)
      ensures Edge(v, Neighbor(g', v, d), d) in rest + added
    {
      if v == b {
        assert Edge(v, Neighbor(g', v, d), d) in added;
      } else {
        assert v in order;
        UnvisitedBefore(g, g', v, d, b);
        SwapRemoveKeeps(frontier, j, Edge(v, Neighbor(g, v, d), d));
      }
    }
  }

  /** A neighbour unvisited after `b` is visited was unvisited before. */
  lemma UnvisitedBefore(g: Grid, g': Grid, v: int, d: Dir, b: int)
    requires Wf(g) && Wf(g') && g'.cols == g.cols && |g'.cells| == |g.cells| && 0 <= v < |g.cells|
    requires forall i :: 0 <= i < |g.cells| ==> g'.cells[i].visited == (g.cells[i].visited || i == b)
    requires Unvisited(g', v, d)
    ensures Unvisited(g, v, d) && Neighbor(g', v, d) == Neighbor(g, v, d)
  {
    assert Neighbor(g', v, d) == Neighbor(g, v, d);
  }

  /** The frontier entries left after the swap-remove are still edges from
      visited cells. */
  lemma RestEdges(g: Grid, g': Grid, frontier: seq<Edge>, order: seq<int>, j: nat)
    requires Wf(g) && Wf(g') && g'.cols == g.cols && |g'.cells| == |g.cells| && j < |frontier|
    requires forall k :: 0 <= k < |frontier| ==> GridEdge(g, frontier[k]) && frontier[k].a in order
    ensures forall k :: 0 <= k < |SwapRemove(frontier, j)| ==>
      GridEdge(g', SwapRemove(frontier, j)[k]) && SwapRemove(frontier, j)[k].a in order
  {
    var rest := SwapRemove(frontier, j);
    forall k | 0 <= k < |rest| ensures GridEdge(g', rest[k]) && rest[k].a in order {
      assert rest[k] in multiset(frontier);
      var e := rest[k];
      assert Neighbor(g', e.a, e.w) == Neighbor(g, e.a, e.w);
    }
  }

  lemma JoinEdges(g: Grid, rest: seq<Edge>, added: seq<Edge>, order: seq<int>, b: int)
    requires Wf(g)
    requires forall k :: 0 <= k < |rest| ==> GridEdge(g, rest[k]) && rest[k].a in order
    requires forall k :: 0 <= k < |added| ==> GridEdge(g, added[k]) && added[k].a == b
    ensures forall k :: 0 <= k < |rest + added| ==> GridEdge(g, (rest + added)[k]) && (rest + added)[k].a in order + [b]
  {
    forall k | 0 <= k < |rest + added| ensures GridEdge(g, (rest + added)[k]) && (rest + added)[k].a in order + [b] {
      if k < |rest| {
        assert (rest + added)[k] == rest[k];
      } else {
        assert (rest + added)[k] == added[k - |rest|];
      }
    }
  }

  /** An empty frontier means every visited cell has only visited
      neighbours, so every cell is visited. */
  lemma GrowDone(cols: int, rows: int, g: Grid, start: int, order: seq<int>, tree: seq<Edge>)
    requires PrimInv(cols, rows, g, start, [], order, tree)
    ensures |order| >= cols * rows
  {
    var vis := seq(|g.cells|, i requires 0 <= i < |g.cells| => g.cells[i].visited);
    assert start in order;
    forall a, d: Dir | 0 <= a < |g.cells| && vis[a] && Neighbor(g, a, d) != -1
      ensures vis[Neighbor(g, a, d)]
    {
      assert !Unvisited(g, a, d);
    }
    ClosedIsAll(g, vis, start);
    forall i | 0 <= i < |g.cells| ensures i in order {
      assert vis[i];
    }
    CoverLength(order, cols * rows);
  }
}
