/** What the three generators share: the edge record `{a, b, w}`, opening a
    list of edges into a grid, and the shape of a carve that grows a spanning
    tree one new cell at a time. */
module Carving {
  import opened Grid
  import opened Choice
  import UnionFind

  /** Cell `b` is cell `a`'s neighbour in direction `w`. */
  datatype Edge = Edge(a: int, b: int, w: Dir)

  ghost predicate GridEdge(g: Grid, e: Edge)
    requires Wf(g)
  {
    0 <= e.a < |g.cells| && e.b == Neighbor(g, e.a, e.w) && e.b != -1
  }

  ghost predicate GridEdges(g: Grid, es: seq<Edge>)
    requires Wf(g)
  {
    forall k :: 0 <= k < |es| ==> GridEdge(g, es[k])
  }

  /** The edge removes wall `d` of cell `i`. */
  predicate Touches(e: Edge, i: int, d: Dir) {
    (e.a == i && e.w == d) || (e.b == i && Opposite(e.w) == d)
  }

  ghost predicate Mentions(es: seq<Edge>, i: int, d: Dir) {
    exists k :: 0 <= k < |es| && Touches(es[k], i, d)
  }

  ghost predicate InBounds(g: Grid, es: seq<Edge>) {
    forall k :: 0 <= k < |es| ==> 0 <= es[k].a < |g.cells| && 0 <= es[k].b < |g.cells|
  }

  /** `removeWallsAB` applied to each edge in turn. */
  function OpenAll(g: Grid, es: seq<Edge>): (r: Grid)
    requires Wf(g) && InBounds(g, es)
    ensures Wf(r) && r.cols == g.cols && r.rows == g.rows
    decreases |es|
  {
    if es == [] then g
    else
      var e := es[|es| - 1];
      RemoveWallsAB(OpenAll(g, es[..|es| - 1]), e.a, e.b, e.w)
  }

  /** Opening a list removes exactly the walls its edges name and changes no flag. */
  lemma {:induction false} OpenAllWalls(g: Grid, es: seq<Edge>)
    requires Wf(g) && InBounds(g, es)
    ensures forall i, d: Dir :: 0 <= i < |g.cells| ==>
      Wall(OpenAll(g, es).cells[i], d) == (Wall(g.cells[i], d) && !Mentions(es, i, d))
    ensures forall i :: 0 <= i < |g.cells| ==>
      OpenAll(g, es).cells[i].visited == g.cells[i].visited
      && OpenAll(g, es).cells[i].blocked == g.cells[i].blocked
    decreases |es|
  {
    if es != [] {
      var init := es[..|es| - 1];
      var e := es[|es| - 1];
      OpenAllWalls(g, init);
      forall i, d: Dir | 0 <= i < |g.cells|
        ensures Mentions(es, i, d) == (Mentions(init, i, d) || Touches(e, i, d))
      {
        if Mentions(es, i, d) && !Touches(e, i, d) {
          var k :| 0 <= k < |es| && Touches(es[k], i, d);
          assert init[k] == es[k];
        }
        if Mentions(init, i, d) {
          var k :| 0 <= k < |init| && Touches(init[k], i, d);
          assert es[k] == init[k];
        }
      }
    }
  }

  lemma OpenAllOpensOnly(g: Grid, es: seq<Edge>)
    requires Wf(g) && InBounds(g, es)
    ensures OpensOnly(g, OpenAll(g, es))
  {
    OpenAllWalls(g, es);
  }

  /** Opening the same list twice changes nothing the second time. */
  lemma OpenAllIdempotent(g: Grid, es: seq<Edge>)
    requires Wf(g) && InBounds(g, es)
    ensures OpenAll(OpenAll(g, es), es) == OpenAll(g, es)
  {
    var h := OpenAll(g, es);
    var r := OpenAll(h, es);
    OpenAllWalls(g, es);
    OpenAllWalls(h, es);
    forall i | 0 <= i < |r.cells|
      ensures r.cells[i] == h.cells[i]
    {
      SameCell(r.cells[i], h.cells[i]);
    }
  }

  lemma SameCell(c: Cell, c': Cell)
    requires forall d: Dir :: Wall(c, d) == Wall(c', d)
    requires c.visited == c'.visited && c.blocked == c'.blocked
    ensures c == c'
  {
    assert Wall(c, North) == Wall(c', North) && Wall(c, East) == Wall(c', East);
    assert Wall(c, South) == Wall(c', South) && Wall(c, West) == Wall(c', West);
  }

  /** Opening neighbour pairs keeps the walls symmetric. */
  lemma {:induction false} OpenAllSymmetric(g: Grid, es: seq<Edge>)
    requires Wf(g) && WallsSymmetric(g) && GridEdges(g, es)
    ensures InBounds(g, es) && WallsSymmetric(OpenAll(g, es))
    decreases |es|
  {
    if es != [] {
      var init := es[..|es| - 1];
      var e := es[|es| - 1];
      assert GridEdges(g, init) by {
        forall k | 0 <= k < |init| ensures GridEdge(g, init[k]) {
          assert init[k] == es[k];
        }
      }
      OpenAllSymmetric(g, init);
      var h := OpenAll(g, init);
      assert Neighbor(h, e.a, e.w) == e.b;
      RemoveWallsKeepsSymmetry(h, e.a, e.w);
    }
  }

  /** Opening a list that contains every edge of another opens at least the
      walls the other opens. */
  lemma OpenAllSuper(g: Grid, es: seq<Edge>, fs: seq<Edge>)
    requires Wf(g) && InBounds(g, es) && InBounds(g, fs)
    requires forall k :: 0 <= k < |fs| ==> fs[k] in es
    ensures OpensOnly(OpenAll(g, fs), OpenAll(g, es))
  {
    OpenAllWalls(g, es);
    OpenAllWalls(g, fs);
    forall i, d: Dir | 0 <= i < |g.cells| && Mentions(fs, i, d) ensures Mentions(es, i, d) {
      var k :| 0 <= k < |fs| && Touches(fs[k], i, d);
      var j :| 0 <= j < |es| && es[j] == fs[k];
      assert Touches(es[j], i, d);
    }
  }

  /** A carve that grew a tree one new cell at a time: `order` lists the cells in
      the order they were reached, starting at `start`, and edge `k` joins an
      already reached cell to `order[k+1]`, its neighbour. */
  ghost predicate GrowsTree(g: Grid, start: int, order: seq<int>, tree: seq<Edge>)
    requires Wf(g)
  {
    && |order| == |tree| + 1
    && order[0] == start
    && (forall k :: 0 <= k < |order| ==> 0 <= order[k] < |g.cells|)
    && (forall j, k :: 0 <= j < k < |order| ==> order[j] != order[k])
    && GridEdges(g, tree)
    && (forall k :: 0 <= k < |tree| ==> tree[k].b == order[k + 1] && tree[k].a in order[..k + 1])
  }

  /** ... and reached every cell. */
  ghost predicate SpanningTree(g: Grid, start: int, order: seq<int>, tree: seq<Edge>)
    requires Wf(g)
  {
    && GrowsTree(g, start, order, tree)
    && |tree| == |g.cells| - 1
    && forall i :: 0 <= i < |g.cells| ==> i in order
  }

  /** Every cell a tree reaches can be walked to from its start once the
      tree's walls are open on an unblocked grid. */
  lemma {:induction false} TreeConnects(g: Grid, start: int, order: seq<int>, tree: seq<Edge>, k: int)
    requires Wf(g) && GrowsTree(g, start, order, tree) && 0 <= k < |order|
    requires forall i :: 0 <= i < |g.cells| ==> !g.cells[i].blocked
    ensures InBounds(g, tree) && Reachable(OpenAll(g, tree), start, order[k])
    decreases k
  {
    var h := OpenAll(g, tree);
    if k == 0 {
      assert WalkFromTo(h, [start], start, start);
    } else {
      var e := tree[k - 1];
      var j :| 0 <= j < k && order[j] == e.a;
      TreeConnects(g, start, order, tree, j);
      var p :| WalkFromTo(h, p, start, e.a);
      TreeEdgeStep(g, tree, k - 1);
      WalkExtend(h, p, start, e.a, e.b);
    }
  }

  /** A tree edge is a traversable move once the tree is opened on an unblocked grid. */
  lemma TreeEdgeStep(g: Grid, tree: seq<Edge>, k: int)
    requires Wf(g) && GridEdges(g, tree) && 0 <= k < |tree|
    requires forall i :: 0 <= i < |g.cells| ==> !g.cells[i].blocked
    ensures InBounds(g, tree) && Step(OpenAll(g, tree), tree[k].a, tree[k].b)
  {
    var h := OpenAll(g, tree);
    var e := tree[k];
    OpenAllWalls(g, tree);
    assert Touches(tree[k], e.a, e.w);
    assert CanStep(h, e.a, e.w);
    StepByDir(h, e.a, e.w);
  }

  lemma TreeAppend(g0: Grid, tree: seq<Edge>, e: Edge)
    requires Wf(g0) && InBounds(g0, tree) && 0 <= e.a < |g0.cells| && 0 <= e.b < |g0.cells|
    ensures InBounds(g0, tree + [e])
    ensures OpenAll(g0, tree + [e]) == RemoveWallsAB(OpenAll(g0, tree), e.a, e.b, e.w)
  {
    assert (tree + [e])[..|tree|] == tree;
  }

  lemma DistinctAppend<T>(xs: seq<T>, x: T)
    requires forall j, k :: 0 <= j < k < |xs| ==> xs[j] != xs[k]
    requires forall k :: 0 <= k < |xs| ==> xs[k] != x
    ensures forall j, k :: 0 <= j < k < |xs + [x]| ==> (xs + [x])[j] != (xs + [x])[k]
  {
  }

  /** A cell list that covers `0 .. n-1` has at least `n` entries. */
  lemma {:induction false} CoverLength(xs: seq<int>, n: nat)
    requires forall i :: 0 <= i < n ==> i in xs
    ensures n <= |xs|
    decreases n
  {
    if n > 0 {
      assert n - 1 in xs;
      var k :| 0 <= k < |xs| && xs[k] == n - 1;
      var ys := xs[..k] + xs[k + 1..];
      forall i | 0 <= i < n - 1 ensures i in ys {
        assert i in xs;
        var j :| 0 <= j < |xs| && xs[j] == i;
        if j < k {
          assert ys[j] == i;
        } else {
          assert ys[j - 1] == i;
        }
      }
      CoverLength(ys, n - 1);
    }
  }

  /** In a spanning tree every cell can be walked to from the start once the
      tree's walls are open on an unblocked grid. */
  lemma SpanningTreeConnects(g: Grid, start: int, order: seq<int>, tree: seq<Edge>)
    requires Wf(g) && SpanningTree(g, start, order, tree)
    requires forall i :: 0 <= i < |g.cells| ==> !g.cells[i].blocked
    ensures InBounds(g, tree)
    ensures forall i :: 0 <= i < |g.cells| ==> Reachable(OpenAll(g, tree), start, i)
  {
    forall i | 0 <= i < |g.cells| ensures InBounds(g, tree) && Reachable(OpenAll(g, tree), start, i) {
      assert i in order;
      var k :| 0 <= k < |order| && order[k] == i;
      TreeConnects(g, start, order, tree, k);
    }
  }

  /** The neighbour of `i` in direction `d` is on the grid and not yet visited. */
  predicate Unvisited(g: Grid, i: int, d: Dir)
    requires Wf(g) && 0 <= i < |g.cells|
  {
    Neighbor(g, i, d) != -1 && !g.cells[Neighbor(g, i, d)].visited
  }

  /** `order` lists the visited cells in visiting order and `tree` the carved
      edges; the grid's walls are the tree's. */
  ghost predicate TreePart(cols: int, rows: int, g: Grid, start: int, order: seq<int>, tree: seq<Edge>)
  {
    && cols >= 1 && rows >= 1
    && Wf(g) && g.cols == cols && g.rows == rows
    && GrowsTree(NewGrid(cols, rows), start, order, tree)
    && InBounds(NewGrid(cols, rows), tree)
    && SameWalls(g, OpenAll(NewGrid(cols, rows), tree))
  }

  /** A grown tree visits no cell twice, so it lists at most every cell. */
  lemma TreePartBound(cols: int, rows: int, g: Grid, start: int, order: seq<int>, tree: seq<Edge>)
    requires TreePart(cols, rows, g, start, order, tree)
    ensures |order| <= cols * rows
  {
    DistinctBound(order, cols * rows);
  }

  /** `index(startX(rng), startY(rng))` with both coordinates drawn from
      `[1, cols-2]` and `[1, rows-2]`. */
  function InteriorStart(cols: int, rows: int, draws: seq<nat>): (s: int)
    requires cols >= 3 && rows >= 3
    ensures 0 <= s < cols * rows
    ensures 1 <= Col(s, cols) <= cols - 2 && 1 <= Row(s, cols) <= rows - 2
  {
    var sx, sy := 1 + Pick(draws, 0, cols - 2), 1 + Pick(draws, 1, rows - 2);
    EncodeDecode(sx, sy, cols, rows);
    IndexXY(sx, sy, cols, rows)
  }

  /** When the loop stops every cell has been visited. */
  lemma CarveDone(cols: int, rows: int, g: Grid, start: int, order: seq<int>, tree: seq<Edge>)
    requires TreePart(cols, rows, g, start, order, tree) && |order| >= cols * rows
    ensures SpanningTree(NewGrid(cols, rows), start, order, tree)
  {
    var g0 := NewGrid(cols, rows);
    DistinctBound(order, cols * rows);
    forall i | 0 <= i < |g0.cells| ensures i in order {
      CoverAll(order, cols * rows, i);
    }
  }

  /** The tree's walls, no visited flag: the grid the generator leaves. */
  lemma ClearedIsTree(cols: int, rows: int, g: Grid, order: seq<int>, tree: seq<Edge>)
    requires cols >= 1 && rows >= 1 && Wf(g) && InBounds(NewGrid(cols, rows), tree)
    requires forall i :: 0 <= i < |g.cells| ==> !g.cells[i].visited
    requires SameWalls(g, OpenAll(NewGrid(cols, rows), tree))
    ensures g == OpenAll(NewGrid(cols, rows), tree)
  {
    var g0 := NewGrid(cols, rows);
    var h := OpenAll(g0, tree);
    OpenAllWalls(g0, tree);
    assert forall i :: 0 <= i < |h.cells| ==> !h.cells[i].visited;
    SameGrid(g, h);
  }

  /** Two grids of one shape that agree on every wall and flag are equal. */
  lemma SameGrid(g: Grid, h: Grid)
    requires Wf(g) && Wf(h) && SameWalls(g, h)
    requires forall i :: 0 <= i < |g.cells| ==> g.cells[i].visited == h.cells[i].visited
    ensures g == h
  {
    forall i | 0 <= i < |g.cells| ensures g.cells[i] == h.cells[i] {
      SameCell(g.cells[i], h.cells[i]);
    }
  }

  lemma TreeSymmetric(g0: Grid, tree: seq<Edge>)
    requires Wf(g0) && WallsSymmetric(g0) && GridEdges(g0, tree)
    ensures InBounds(g0, tree) && WallsSymmetric(OpenAll(g0, tree))
  {
    OpenAllSymmetric(g0, tree);
  }

  /** Removing the same wall pair from two grids with equal walls keeps them equal. */
  lemma RemoveSameWalls(g: Grid, h: Grid, a: int, b: int, w: Dir)
    requires Wf(g) && Wf(h) && SameWalls(g, h) && 0 <= a < |g.cells| && 0 <= b < |g.cells|
    ensures SameWalls(SetVisited(RemoveWallsAB(g, a, b, w), b), RemoveWallsAB(h, a, b, w))
  {
  }

  /** Growing the tree by an edge to a cell not reached before. */
  lemma GrowTree(g0: Grid, start: int, order: seq<int>, tree: seq<Edge>, e: Edge)
    requires Wf(g0) && GrowsTree(g0, start, order, tree) && GridEdge(g0, e)
    requires e.a in order && e.b !in order
    ensures GrowsTree(g0, start, order + [e.b], tree + [e])
  {
    var order', tree' := order + [e.b], tree + [e];
    forall k | 0 <= k < |tree'| ensures tree'[k].b == order'[k + 1] && tree'[k].a in order'[..k + 1] {
      if k < |tree| {
        assert tree'[k] == tree[k] && order'[..k + 1] == order[..k + 1];
      } else {
        assert order'[..k + 1] == order;
      }
    }
    assert GridEdges(g0, tree') by {
      forall k | 0 <= k < |tree'| ensures GridEdge(g0, tree'[k]) {
        if k < |tree| {
          assert tree'[k] == tree[k];
        }
      }
    }
  }

  /** A duplicate-free list of addresses below `n` has at most `n` entries, and
      one with exactly `n` entries contains every address. */
  lemma DistinctBound(xs: seq<int>, n: nat)
    requires forall k :: 0 <= k < |xs| ==> 0 <= xs[k] < n
    requires forall j, k :: 0 <= j < k < |xs| ==> xs[j] != xs[k]
    ensures |xs| <= n
  {
    var s := set k | 0 <= k < |xs| :: xs[k];
    assert |s| == |xs| by {
      DistinctSetSize(xs);
    }
    SetBelow(s, n);
  }

  lemma CoverAll(xs: seq<int>, n: nat, i: int)
    requires forall k :: 0 <= k < |xs| ==> 0 <= xs[k] < n
    requires forall j, k :: 0 <= j < k < |xs| ==> xs[j] != xs[k]
    requires |xs| >= n && 0 <= i < n
    ensures i in xs
  {
    var s := set k | 0 <= k < |xs| :: xs[k];
    DistinctSetSize(xs);
    if i !in xs {
      assert i !in s;
      SetBelow(s + {i}, n);
    }
  }

  lemma {:induction false} DistinctSetSize(xs: seq<int>)
    requires forall j, k :: 0 <= j < k < |xs| ==> xs[j] != xs[k]
    ensures |set k | 0 <= k < |xs| :: xs[k]| == |xs|
  {
    if xs != [] {
      var init := xs[..|xs| - 1];
      DistinctSetSize(init);
      var s := set k | 0 <= k < |init| :: init[k];
      assert (set k | 0 <= k < |xs| :: xs[k]) == s + {xs[|xs| - 1]};
      assert xs[|xs| - 1] !in s;
    }
  }

  /** A set of addresses below `n` has at most `n` members. */
  lemma SetBelow(s: set<int>, n: nat)
    requires forall x :: x in s ==> 0 <= x < n
    ensures |s| <= n
  {
    UnionFind.SubsetCard(s, Below(n));
  }

  /** The addresses `0 .. n-1`. */
  function Below(n: nat): (s: set<int>)
    ensures forall x :: x in s <==> 0 <= x < n
    ensures |s| == n
  {
    if n == 0 then {} else Below(n - 1) + {n - 1}
  }
}
