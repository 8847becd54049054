/** The recursive backtracker: a depth-first carve from a random interior
    cell, moving to a random unvisited neighbour and backing up along a stack
    when there is none. Neighbours travel packed as `(dir << 16) | index`. */
module Backtracker {
  import opened Grid
  import opened Carving
  import opened Choice

  /** `(d << 16) | i`: a direction and a cell address in one word. On
      non-negative words with `i` below 2^16 the shift is a multiplication by
      2^16 and the `or` an addition. */
  function Pack(d: Dir, i: int): int
    requires 0 <= i < 0x10000
  {
    d * 0x10000 + i
  }

  /** `packed >> 16` on a non-negative word. */
  function PackedDir(p: int): int
    requires p >= 0
  {
    p / 0x10000
  }

  /** `packed & 0xFFFF` on a non-negative word. */
  function PackedCell(p: int): int
    requires p >= 0
  {
    p % 0x10000
  }

  /** Unpacking returns what was packed, as long as the address fits in 16 bits. */
  lemma PackRoundTrip(d: Dir, i: int)
    requires 0 <= i < 0x10000
    ensures Pack(d, i) >= 0 && PackedDir(Pack(d, i)) == d && PackedCell(Pack(d, i)) == i
  {
  }

  /** `getUnvisitedNeighbors`: the unvisited on-grid neighbours of `i`, north,
      east, south, west, each packed with its direction. */
  function UnvisitedNeighbors(g: Grid, i: int): (r: seq<int>)
    requires Wf(g) && 0 <= i < |g.cells| && |g.cells| <= 0x10000
    ensures forall k :: 0 <= k < |r| ==>
      r[k] >= 0 && 0 <= PackedDir(r[k]) < 4 && Unvisited(g, i, PackedDir(r[k])) && PackedCell(r[k]) == Neighbor(g, i, PackedDir(r[k]))
    ensures r == [] <==> forall d: Dir :: !Unvisited(g, i, d)
  {
    NeighborsFrom(g, i, 0)
  }

  function NeighborsFrom(g: Grid, i: int, d: nat): (r: seq<int>)
    requires Wf(g) && 0 <= i < |g.cells| && |g.cells| <= 0x10000 && d <= 4
    ensures forall k :: 0 <= k < |r| ==>
      r[k] >= 0 && d <= PackedDir(r[k]) < 4 && Unvisited(g, i, PackedDir(r[k])) && PackedCell(r[k]) == Neighbor(g, i, PackedDir(r[k]))
    ensures r == [] <==> forall e: Dir :: d <= e ==> !Unvisited(g, i, e)
    decreases 4 - d
  {
    if d == 4 then []
    else
      var rest := NeighborsFrom(g, i, d + 1);
      if Unvisited(g, i, d) then
        PackRoundTrip(d, Neighbor(g, i, d));
        [Pack(d, Neighbor(g, i, d))] + rest
      else rest
  }

  /** Cell `v` has no unvisited neighbour left. */
  ghost predicate Done(g: Grid, v: int)
    requires Wf(g) && 0 <= v < |g.cells|
  {
    forall d: Dir :: !Unvisited(g, v, d)
  }

  /** What holds between iterations of the carve loop: the carve so far is a
      tree grown from the start, and the search state is consistent. */
  ghost predicate BtInv(cols: int, rows: int, g: Grid, start: int, cur: int, stack: seq<int>,
                        order: seq<int>, tree: seq<Edge>)
  {
    cols * rows <= 0x10000 && TreePart(cols, rows, g, start, order, tree) && SearchPart(g, cur, stack, order)
  }

  /** The visited flags mark `order`; every visited cell that is neither
      current nor on the stack is finished. */
  ghost predicate SearchPart(g: Grid, cur: int, stack: seq<int>, order: seq<int>)
    requires Wf(g)
  {
    && (forall i :: 0 <= i < |g.cells| ==> (g.cells[i].visited <==> i in order))
    && 0 <= cur < |g.cells| && cur in order
    && (forall k :: 0 <= k < |stack| ==> 0 <= stack[k] < |g.cells| && stack[k] in order)
    && (forall v :: 0 <= v < |g.cells| && v in order && v != cur && v !in stack ==> Done(g, v))
  }

  /** `generateBacktracker` before its post-passes: the carve starts at a
      drawn interior cell and ends when every cell is visited; the carved
      edges form a spanning tree grown from the start, and clearing the visited
      flags leaves exactly the tree's walls open. */
  method GenerateBacktracker(cols: int, rows: int, draws: seq<nat>)
    returns (g: Grid, start: int, order: seq<int>, tree: seq<Edge>)
    requires cols >= 3 && rows >= 3 && cols * rows <= 0x10000
    ensures Wf(g) && g.cols == cols && g.rows == rows
    ensures 0 <= start < cols * rows
    ensures 1 <= Col(start, cols) <= cols - 2 && 1 <= Row(start, cols) <= rows - 2
    ensures SpanningTree(NewGrid(cols, rows), start, order, tree)
    ensures InBounds(NewGrid(cols, rows), tree) && g == OpenAll(NewGrid(cols, rows), tree)
    ensures WallsSymmetric(g)
  {
    start := InteriorStart(cols, rows, draws);
    g, order, tree := CarveAll(cols, rows, draws, 2, start);
    CarveDone(cols, rows, g, start, order, tree);
    g := ClearGridVisited(g);
    ClearedIsTree(cols, rows, g, order, tree);
    TreeSymmetric(NewGrid(cols, rows), tree);
  }

  /** The carve loop from `start` until every cell is visited, taking its
      draws from number `k0` on. */
  method CarveAll(cols: int, rows: int, draws: seq<nat>, k0: nat, start: int) returns (g: Grid, order: seq<int>, tree: seq<Edge>)
    requires cols >= 1 && rows >= 1 && cols * rows <= 0x10000 && 0 <= start < cols * rows
    ensures TreePart(cols, rows, g, start, order, tree) && |order| >= cols * rows
  {
    g := SetVisited(NewGrid(cols, rows), start);
    var cur, stack, k := start, [], k0;
    order, tree := [start], [];
    CarveInit(cols, rows, g, start);
    while |order| < cols * rows
      invariant BtInv(cols, rows, g, start, cur, stack, order, tree)
      decreases cols * rows - |order|, |stack|
    {
      k, g, cur, stack, order, tree := CarveStep(cols, rows, draws, k, g, start, cur, stack, order, tree);
    }
  }

  /** One iteration of the carve loop. With an unvisited neighbour it carves
      to the drawn one; otherwise it pops the stack. The program's third
      branch, a scan for any unvisited cell when the stack is empty, is never
      taken: by then every cell is visited. */
  method CarveStep(cols: int, rows: int, draws: seq<nat>, k: nat, g: Grid, start: int, cur: int,
                   stack: seq<int>, order: seq<int>, tree: seq<Edge>)
    returns (k': nat, g': Grid, cur': int, stack': seq<int>, order': seq<int>, tree': seq<Edge>)
    requires BtInv(cols, rows, g, start, cur, stack, order, tree) && |order| < cols * rows
    ensures BtInv(cols, rows, g', start, cur', stack', order', tree')
    ensures |order'| == |order| + 1 || (order' == order && |stack'| < |stack|)
    ensures var nbrs := UnvisitedNeighbors(g, cur);
      nbrs != [] ==>
        var p := nbrs[Pick(draws, k, |nbrs|)];
        && cur' == PackedCell(p) && !g.cells[cur'].visited
        && tree' == tree + [Edge(cur, cur', PackedDir(p))] && order' == order + [cur']
        && stack' == stack + [cur] && k' == k + 1
    ensures UnvisitedNeighbors(g, cur) == [] ==>
      stack != [] && cur' == stack[|stack| - 1] && stack' == stack[..|stack| - 1]
      && tree' == tree && order' == order && g' == g && k' == k
  {
    var nbrs := UnvisitedNeighbors(g, cur);
    if nbrs != [] {
      var p := nbrs[Pick(draws, k, |nbrs|)];
      var w: Dir, nxt := PackedDir(p), PackedCell(p);
      g' := SetVisited(RemoveWallsAB(g, cur, nxt, w), nxt);
      cur', stack', order', tree', k' := nxt, stack + [cur], order + [nxt], tree + [Edge(cur, nxt, w)], k + 1;
      CarveForward(cols, rows, g, start, cur, stack, order, tree, w);
    } else if stack != [] {
      cur', stack' := stack[|stack| - 1], stack[..|stack| - 1];
      g', order', tree', k' := g, order, tree, k;
      CarveBack(cols, rows, g, start, cur, stack, order, tree);
    } else {
      Stuck(cols, rows, g, start, cur, order, tree);
      assert false;
    }
  }

  lemma CarveInit(cols: int, rows: int, g: Grid, start: int)
    requires cols >= 1 && rows >= 1 && cols * rows <= 0x10000 && 0 <= start < cols * rows
    requires g == SetVisited(NewGrid(cols, rows), start)
    ensures BtInv(cols, rows, g, start, start, [], [start], [])
  {
    var g0 := NewGrid(cols, rows);
    assert SameWalls(g, OpenAll(g0, []));
    assert forall i :: 0 <= i < |g.cells| ==> (g.cells[i].visited <==> i in [start]);
  }

  /** Carving to an unvisited neighbour keeps the invariant. */
  lemma CarveForward(cols: int, rows: int, g: Grid, start: int, cur: int, stack: seq<int>,
                     order: seq<int>, tree: seq<Edge>, w: Dir)
    requires BtInv(cols, rows, g, start, cur, stack, order, tree) && Unvisited(g, cur, w)
    ensures var nxt := Neighbor(g, cur, w);
      BtInv(cols, rows, SetVisited(RemoveWallsAB(g, cur, nxt, w), nxt), start, nxt,
            stack + [cur], order + [nxt], tree + [Edge(cur, nxt, w)])
  {
    var nxt := Neighbor(g, cur, w);
    var g' := SetVisited(RemoveWallsAB(g, cur, nxt, w), nxt);
    ForwardTree(cols, rows, g, start, cur, order, tree, w);
    ForwardSearch(g, g', cur, stack, order, nxt);
  }

  lemma ForwardTree(cols: int, rows: int, g: Grid, start: int, cur: int, order: seq<int>, tree: seq<Edge>, w: Dir)
    requires TreePart(cols, rows, g, start, order, tree)
    requires (forall i :: 0 <= i < |g.cells| ==> (g.cells[i].visited <==> i in order))
    requires 0 <= cur < |g.cells| && cur in order && Unvisited(g, cur, w)
    ensures var nxt := Neighbor(g, cur, w);
      TreePart(cols, rows, SetVisited(RemoveWallsAB(g, cur, nxt, w), nxt), start, order + [nxt], tree + [Edge(cur, nxt, w)])
  {
    var g0 := NewGrid(cols, rows);
    var nxt := Neighbor(g, cur, w);
    var e := Edge(cur, nxt, w);
    assert nxt !in order;
    assert GridEdge(g0, e);
    GrowTree(g0, start, order, tree, e);
    TreeAppend(g0, tree, e);
    RemoveSameWalls(g, OpenAll(g0, tree), cur, nxt, w);
  }

  lemma ForwardSearch(g: Grid, g': Grid, cur: int, stack: seq<int>, order: seq<int>, nxt: int)
    requires Wf(g) && SearchPart(g, cur, stack, order)
    requires 0 <= nxt < |g.cells| && !g.cells[nxt].visited
    requires Wf(g') && g'.cols == g.cols && |g'.cells| == |g.cells|
    requires forall i :: 0 <= i < |g.cells| ==> g'.cells[i].visited == (g.cells[i].visited || i == nxt)
    ensures SearchPart(g', nxt, stack + [cur], order + [nxt])
  {
    var order', stack' := order + [nxt], stack + [cur];
    forall v | 0 <= v < |g'.cells| && v in order' && v != nxt && v !in stack'
      ensures Done(g', v)
    {
      assert v in order && v != cur && v !in stack;
      VisitedGrows(g, g', v);
    }
  }

  /** Backing up to the top of the stack keeps the invariant: the cell left
      behind has no unvisited neighbour. */
  lemma CarveBack(cols: int, rows: int, g: Grid, start: int, cur: int, stack: seq<int>,
                  order: seq<int>, tree: seq<Edge>)
    requires BtInv(cols, rows, g, start, cur, stack, order, tree) && stack != []
    requires UnvisitedNeighbors(g, cur) == []
    ensures BtInv(cols, rows, g, start, stack[|stack| - 1], stack[..|stack| - 1], order, tree)
  {
    BackSearch(g, cur, stack, order);
  }

  lemma BackSearch(g: Grid, cur: int, stack: seq<int>, order: seq<int>)
    requires Wf(g) && SearchPart(g, cur, stack, order) && stack != [] && Done(g, cur)
    ensures SearchPart(g, stack[|stack| - 1], stack[..|stack| - 1], order)
  {
    var top, rest := stack[|stack| - 1], stack[..|stack| - 1];
    assert stack == rest + [top];
    forall k | 0 <= k < |rest| ensures 0 <= rest[k] < |g.cells| && rest[k] in order {
      assert rest[k] == stack[k];
    }
  }

  /** With the stack empty and no unvisited neighbour every visited cell is
      finished, so the visited cells are closed under adjacency and cover the
      grid; the loop would already have stopped. */
  lemma Stuck(cols: int, rows: int, g: Grid, start: int, cur: int, order: seq<int>, tree: seq<Edge>)
    requires BtInv(cols, rows, g, start, cur, [], order, tree)
    requires UnvisitedNeighbors(g, cur) == []
    ensures |order| >= cols * rows
  {
    AllFinished(g, cur, order);
    CoverLength(order, cols * rows);
  }

  lemma AllFinished(g: Grid, cur: int, order: seq<int>)
    requires Wf(g) && SearchPart(g, cur, [], order) && Done(g, cur)
    ensures forall i :: 0 <= i < |g.cells| ==> i in order
  {
    var vis := seq(|g.cells|, i requires 0 <= i < |g.cells| => g.cells[i].visited);
    forall a, d: Dir | 0 <= a < |g.cells| && vis[a] && Neighbor(g, a, d) != -1
      ensures vis[Neighbor(g, a, d)]
    {
      assert Done(g, a);
      assert !Unvisited(g, a, d);
    }
    ClosedIsAll(g, vis, cur);
    forall i | 0 <= i < |g.cells| ensures i in order {
      assert vis[i];
    }
  }

  /** Visiting more cells can only finish a cell, never unfinish it. */
  lemma VisitedGrows(g: Grid, g': Grid, v: int)
    requires Wf(g) && Wf(g') && g'.cols == g.cols && |g'.cells| == |g.cells| && 0 <= v < |g.cells|
    requires forall i :: 0 <= i < |g.cells| && g.cells[i].visited ==> g'.cells[i].visited
    requires Done(g, v)
    ensures Done(g', v)
  {
    forall d: Dir ensures !Unvisited(g', v, d) {
      assert !Unvisited(g, v, d);
    }
  }
}
