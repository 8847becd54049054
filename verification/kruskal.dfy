/** Randomized Kruskal: every east and south edge, shuffled, kept exactly when
    it joins two different sets of the union-find. */
module Kruskal {
  import opened Grid
  import opened Carving
  import opened UnionFind
  import opened Choice

  /** The edges from cell `i` in the order of the table `{{1,0,1},{0,1,2}}`:
      east, then south, each only when the neighbour is on the grid. */
  function CellEdges(g: Grid, i: int): seq<Edge>
    requires Wf(g) && 0 <= i < |g.cells|
  {
    var be := Neighbor(g, i, East);
    var bs := Neighbor(g, i, South);
    (if be != -1 then [Edge(i, be, East)] else []) + (if bs != -1 then [Edge(i, bs, South)] else [])
  }

  /** A cell's list holds grid edges from that cell, the east one before the
      south one, and an edge is listed exactly when it leaves the cell east or
      south toward a neighbour on the grid. */
  lemma CellEdgesFacts(g: Grid, i: int)
    requires Wf(g) && 0 <= i < |g.cells|
    ensures GridEdges(g, CellEdges(g, i))
    ensures forall k :: 0 <= k < |CellEdges(g, i)| ==> CellEdges(g, i)[k].a == i
    ensures forall j, k :: 0 <= j < k < |CellEdges(g, i)| ==> CellEdges(g, i)[j].w == East && CellEdges(g, i)[k].w == South
    ensures forall e: Edge :: e in CellEdges(g, i) <==>
      e.a == i && (e.w == East || e.w == South) && e.b == Neighbor(g, i, e.w) && e.b != -1
  {
  }

  /** The two nested loops of `generateKruskal`, rows outer and columns inner,
      visit the cells in index order; this is that walk from cell `i` on. */
  function EdgesFrom(g: Grid, i: int): seq<Edge>
    requires Wf(g) && 0 <= i <= |g.cells|
    decreases |g.cells| - i
  {
    if i == |g.cells| then [] else CellEdges(g, i) + EdgesFrom(g, i + 1)
  }

  /** The walk from cell `i` lists grid edges, east or south, of cells from
      `i` on. */
  lemma {:induction false} EdgesFromFacts(g: Grid, i: int)
    requires Wf(g) && 0 <= i <= |g.cells|
    ensures GridEdges(g, EdgesFrom(g, i))
    ensures forall k :: 0 <= k < |EdgesFrom(g, i)| ==>
      i <= EdgesFrom(g, i)[k].a && (EdgesFrom(g, i)[k].w == East || EdgesFrom(g, i)[k].w == South)
    decreases |g.cells| - i
  {
    if i < |g.cells| {
      EdgesFromFacts(g, i + 1);
      CellEdgesFacts(g, i);
      AppendEdges(g, i, CellEdges(g, i), EdgesFrom(g, i + 1));
    }
  }

  lemma AppendEdges(g: Grid, i: int, head: seq<Edge>, tail: seq<Edge>)
    requires Wf(g) && GridEdges(g, head) && GridEdges(g, tail)
    requires forall k :: 0 <= k < |head| ==> head[k].a == i && (head[k].w == East || head[k].w == South)
    requires forall j, k :: 0 <= j < k < |head| ==> head[j].w == East && head[k].w == South
    requires forall k :: 0 <= k < |tail| ==> i + 1 <= tail[k].a && (tail[k].w == East || tail[k].w == South)
    ensures GridEdges(g, head + tail)
    ensures forall k :: 0 <= k < |head + tail| ==> i <= (head + tail)[k].a && ((head + tail)[k].w == East || (head + tail)[k].w == South)
  {
    var r := head + tail;
    forall k | 0 <= k < |r| ensures r[k] == if k < |head| then head[k] else tail[k - |head|] {
    }
  }

  /** Every edge the generator considers: each east and south adjacency of the
      grid, once. */
  function KruskalEdges(g: Grid): (r: seq<Edge>)
    requires Wf(g)
    ensures GridEdges(g, r)
    ensures forall k :: 0 <= k < |r| ==> r[k].w == East || r[k].w == South
    ensures forall j, k :: 0 <= j < k < |r| ==> r[j] != r[k]
  {
    EdgesFromFacts(g, 0);
    EdgesFromDistinct(g, 0);
    EdgesFrom(g, 0)
  }

  lemma {:induction false} EdgesFromDistinct(g: Grid, i: int)
    requires Wf(g) && 0 <= i <= |g.cells|
    ensures forall j, k :: 0 <= j < k < |EdgesFrom(g, i)| ==> EdgesFrom(g, i)[j] != EdgesFrom(g, i)[k]
    decreases |g.cells| - i
  {
    if i < |g.cells| {
      EdgesFromDistinct(g, i + 1);
      EdgesFromFacts(g, i + 1);
      CellEdgesFacts(g, i);
      DistinctJoin(CellEdges(g, i), EdgesFrom(g, i + 1), i);
    }
  }

  /** One cell's edges, all from `i` and of different directions, followed by
      edges from later cells repeat nothing. */
  lemma DistinctJoin(head: seq<Edge>, tail: seq<Edge>, i: int)
    requires forall k :: 0 <= k < |head| ==> head[k].a == i
    requires forall j, k :: 0 <= j < k < |head| ==> head[j].w == East && head[k].w == South
    requires forall k :: 0 <= k < |tail| ==> i + 1 <= tail[k].a
    requires forall j, k :: 0 <= j < k < |tail| ==> tail[j] != tail[k]
    ensures forall j, k :: 0 <= j < k < |head + tail| ==> (head + tail)[j] != (head + tail)[k]
  {
    var r := head + tail;
    forall j, k | 0 <= j < k < |r| ensures r[j] != r[k] {
      if k < |head| {
        assert r[j] == head[j] && r[k] == head[k];
      } else if j >= |head| {
        assert r[j] == tail[j - |head|] && r[k] == tail[k - |head|];
      } else {
        assert r[j] == head[j] && r[k] == tail[k - |head|];
      }
    }
  }

  /** Every east or south adjacency is enumerated. */
  lemma KruskalEdgesComplete(g: Grid, a: int, w: Dir)
    requires Wf(g) && 0 <= a < |g.cells| && (w == East || w == South)
    requires Neighbor(g, a, w) != -1
    ensures Edge(a, Neighbor(g, a, w), w) in KruskalEdges(g)
  {
    var e := Edge(a, Neighbor(g, a, w), w);
    CellEdgesFacts(g, a);
    InEdgesFrom(g, e, 0);
  }

  /** The walk from cell `i` on lists every edge of every later cell. */
  lemma {:induction false} InEdgesFrom(g: Grid, e: Edge, i: int)
    requires Wf(g) && 0 <= i <= e.a < |g.cells| && e in CellEdges(g, e.a)
    ensures e in EdgesFrom(g, i)
    decreases e.a - i
  {
    if i < e.a {
      InEdgesFrom(g, e, i + 1);
    }
    EdgesFromStep(g, e, i);
  }

  /** The walk from `i` holds the edges of cell `i` and of the walk from
      `i + 1`. */
  lemma EdgesFromStep(g: Grid, e: Edge, i: int)
    requires Wf(g) && 0 <= i < |g.cells|
    requires e in CellEdges(g, i) || e in EdgesFrom(g, i + 1)
    ensures e in EdgesFrom(g, i)
  {
    InAppend(CellEdges(g, i), EdgesFrom(g, i + 1), e);
  }

  lemma InAppend<T>(xs: seq<T>, ys: seq<T>, x: T)
    requires x in xs || x in ys
    ensures x in xs + ys
  {
  }

  /** Sets joined by the union-find, as a labelling of the cells. */
  function Classes(d: Dsu, n: nat): (lab: seq<nat>)
    requires Valid(d) && |d.parent| == n
    ensures |lab| == n && forall i :: 0 <= i < n ==> lab[i] == Root(d, i)
  {
    seq(n, i requires 0 <= i < n => Root(d, i))
  }

  /** Every edge of `es` joins two elements of one set. */
  ghost predicate Joined(dsu: Dsu, es: seq<Edge>)
    requires Valid(dsu)
  {
    forall k :: 0 <= k < |es| ==>
      && 0 <= es[k].a < |dsu.parent| && 0 <= es[k].b < |dsu.parent|
      && Root(dsu, es[k].a) == Root(dsu, es[k].b)
  }

  /** What holds after the first `i` edges of `order` have been scanned. */
  ghost predicate ScanInv(g0: Grid, order: seq<Edge>, i: int, dsu: Dsu, g: Grid, tree: seq<Edge>)
  {
    && Wf(g0) && InBounds(g0, order) && 0 <= i <= |order|
    && Valid(dsu) && |dsu.parent| == |g0.cells|
    && InBounds(g0, tree) && g == OpenAll(g0, tree)
    && |Roots(dsu)| + |tree| == |g0.cells|
    && Joined(dsu, order[..i]) && Joined(dsu, tree)
    && (forall k :: 0 <= k < |tree| ==> tree[k] in order)
    && (forall j, k :: 0 <= j < k < |tree| ==> tree[j] != tree[k])
  }

  /** `generateKruskal` before its post-passes: starting from a fully walled
      grid, scan the shuffled edge list and open an edge's wall pair exactly
      when `unite` succeeds. The kept edges form a spanning tree: exactly
      `cols*rows - 1` wall pairs are removed, no pair twice. */
  method GenerateKruskal(cols: int, rows: int, draws: seq<nat>) returns (g: Grid, tree: seq<Edge>)
    requires cols >= 1 && rows >= 1
    ensures Wf(g) && g.cols == cols && g.rows == rows
    ensures InBounds(NewGrid(cols, rows), tree) && g == OpenAll(NewGrid(cols, rows), tree)
    ensures WallsSymmetric(g)
    ensures |tree| == cols * rows - 1
    ensures forall k :: 0 <= k < |tree| ==> tree[k] in KruskalEdges(NewGrid(cols, rows))
    ensures forall j, k :: 0 <= j < k < |tree| ==> tree[j] != tree[k]
    ensures cols * rows > 1 ==> tree[0] == Shuffle(KruskalEdges(NewGrid(cols, rows)), draws)[0]
    ensures Connected(g)
  {
    var g0 := NewGrid(cols, rows);
    var all := KruskalEdges(g0);
    var order := Shuffle(all, draws);
    ShuffledInBounds(g0, all, order);
    if |order| > 0 {
      assert GridEdge(g0, order[0]);
      NeighborDistinct(g0, order[0].a, order[0].w);
    }
    var dsu;
    g, tree, dsu := ScanEdges(g0, order, true);
    AllJoined(g0, order, dsu);
    OneSetConnected(g, dsu);
    TreeFromList(g0, all, order, tree);
    if |tree| > 0 {
      NonEmptyShuffle(all, order, tree[0]);
    }
  }

  /** A rearrangement of a list holding `x` is not empty. */
  lemma NonEmptyShuffle<T>(all: seq<T>, order: seq<T>, x: T)
    requires multiset(order) == multiset(all) && x in all
    ensures |order| > 0
  {
    assert x in multiset(order);
  }

  /** The scan itself: each edge in turn, kept when `unite` succeeds. */
  method ScanEdges(g0: Grid, order: seq<Edge>, ghost walkable: bool) returns (g: Grid, tree: seq<Edge>, dsu: Dsu)
    requires Wf(g0) && InBounds(g0, order)
    requires walkable ==> Unblocked(g0) && GridEdges(g0, order)
    ensures ScanInv(g0, order, |order|, dsu, g, tree) && Joined(dsu, order)
    ensures |order| > 0 && order[0].a != order[0].b ==> |tree| > 0 && tree[0] == order[0]
    ensures walkable ==> Wf(g) && SetsReach(dsu, g)
  {
    ScanInit(g0, order);
    if walkable {
      ResetReach(g0);
    }
    g, tree, dsu := ScanFrom(g0, order, 0, Reset(|g0.cells|), g0, [], walkable);
    ScanDone(g0, order, dsu, g, tree);
  }

  /** The scan from edge `i` on: the tree only grows, and edge `i` is kept
      when its ends lie in different sets. */
  method ScanFrom(g0: Grid, order: seq<Edge>, i: int, dsu: Dsu, g: Grid, tree: seq<Edge>, ghost walkable: bool)
    returns (g': Grid, tree': seq<Edge>, d': Dsu)
    requires ScanInv(g0, order, i, dsu, g, tree)
    requires walkable ==> Unblocked(g0) && GridEdges(g0, order) && Wf(g) && SetsReach(dsu, g)
    ensures ScanInv(g0, order, |order|, d', g', tree')
    ensures tree <= tree'
    ensures i < |order| && Root(dsu, order[i].a) != Root(dsu, order[i].b) ==> |tree| < |tree'| && tree'[|tree|] == order[i]
    ensures walkable ==> Wf(g') && SetsReach(d', g')
    decreases |order| - i
  {
    if i == |order| {
      return g, tree, dsu;
    }
    var d1, g1, t1 := ScanOne(g0, order, i, dsu, g, tree, walkable);
    g', tree', d' := ScanFrom(g0, order, i + 1, d1, g1, t1, walkable);
  }

  /** One iteration: unite the ends of edge `i`; when they were in different
      sets, open the wall pair and keep the edge. */
  method ScanOne(g0: Grid, order: seq<Edge>, i: int, dsu: Dsu, g: Grid, tree: seq<Edge>, ghost walkable: bool)
    returns (d': Dsu, g': Grid, tree': seq<Edge>)
    requires ScanInv(g0, order, i, dsu, g, tree) && i < |order|
    requires walkable ==> Unblocked(g0) && GridEdges(g0, order) && Wf(g) && SetsReach(dsu, g)
    ensures ScanInv(g0, order, i + 1, d', g', tree')
    ensures tree' == if Root(dsu, order[i].a) != Root(dsu, order[i].b) then tree + [order[i]] else tree
    ensures walkable ==> Wf(g') && SetsReach(d', g')
  {
    var e := order[i];
    var (joined, d1) := Unite(dsu, e.a, e.b);
    d' := d1;
    g', tree' := g, tree;
    if joined {
      g' := RemoveWallsAB(g, e.a, e.b, e.w);
      tree' := tree + [e];
    }
    ScanStep(g0, order, i, dsu, g, tree, joined, d', g', tree');
    if walkable {
      assert GridEdge(g0, e);
      ScanReach(g0, tree, dsu, g, e, d', g');
    }
  }

  /** Any two elements of one set can walk to each other in `g`. */
  ghost predicate SetsReach(dsu: Dsu, g: Grid)
    requires Valid(dsu) && Wf(g) && |dsu.parent| == |g.cells|
  {
    forall x, y {:trigger Reachable(g, x, y)} :: 0 <= x < |g.cells| && 0 <= y < |g.cells| && Root(dsu, x) == Root(dsu, y) ==> Reachable(g, x, y)
  }

  /** Singleton sets: each cell walks to itself. */
  lemma ResetReach(g0: Grid)
    requires Wf(g0)
    ensures SetsReach(Reset(|g0.cells|), g0)
  {
    forall x | 0 <= x < |g0.cells| {
      ReachableRefl(g0, x);
    }
  }

  /** One scanned edge keeps every set walkable: a successful union opens
      the wall pair between the two sets it merges. */
  lemma ScanReach(g0: Grid, tree: seq<Edge>, dsu: Dsu, g: Grid, e: Edge, d': Dsu, g': Grid)
    requires Wf(g0) && Unblocked(g0) && InBounds(g0, tree) && g == OpenAll(g0, tree)
    requires Valid(dsu) && |dsu.parent| == |g0.cells| && SetsReach(dsu, g) && GridEdge(g0, e)
    requires d' == Unite(dsu, e.a, e.b).1
    requires g' == if Root(dsu, e.a) != Root(dsu, e.b) then RemoveWallsAB(g, e.a, e.b, e.w) else g
    ensures Wf(g') && SetsReach(d', g')
  {
    assert g.cols == g0.cols && g.rows == g0.rows;
    OpenAllOpensOnly(g0, tree);
    OpensOnlyUnblocked(g0, g);
    NeighborSameShape(g, g0, e.a, e.w);
    UniteReach(dsu, g, e, d', g');
  }

  /** Uniting the ends of a grid edge, and opening its wall pair when they
      lay in different sets, keeps every set walkable. */
  lemma UniteReach(d: Dsu, g: Grid, e: Edge, d': Dsu, g': Grid)
    requires Valid(d) && Wf(g) && |d.parent| == |g.cells| && Unblocked(g) && SetsReach(d, g)
    requires 0 <= e.a < |g.cells| && e.b == Neighbor(g, e.a, e.w) && e.b != -1
    requires d' == Unite(d, e.a, e.b).1
    requires g' == if Root(d, e.a) != Root(d, e.b) then RemoveWallsAB(g, e.a, e.b, e.w) else g
    ensures Wf(g') && SetsReach(d', g')
  {
    UniteMerges(d, e.a, e.b);
    UniteKeepsRoot(d, e.a, e.b);
    OpensOnlyReach(d, g, g', e);
    if Root(d, e.a) != Root(d, e.b) {
      OpenedEdgeReach(g, e, g');
    } else {
      assert Reachable(g', e.a, e.b) && Reachable(g', e.b, e.a);
    }
    MergedReach(d, d', g', e.a, e.b);
  }

  /** The merged forest keeps every set walkable. */
  lemma MergedReach(d: Dsu, d': Dsu, g: Grid, a: nat, b: nat)
    requires Valid(d) && Wf(g) && |d.parent| == |g.cells| && a < |d.parent| && b < |d.parent|
    requires Merges(d, d', a, b) && (Root(d', a) == Root(d, a) || Root(d', a) == Root(d, b))
    requires SetsReach(d, g) && Reachable(g, a, b) && Reachable(g, b, a)
    ensures SetsReach(d', g)
  {
    forall x, y | 0 <= x < |g.cells| && 0 <= y < |g.cells| && Root(d', x) == Root(d', y)
      ensures Reachable(g, x, y)
    {
      MergedPair(d, d', g, a, b, x, y);
    }
  }

  /** Opening the wall pair, or nothing, keeps every set walkable. */
  lemma OpensOnlyReach(d: Dsu, g: Grid, g': Grid, e: Edge)
    requires Valid(d) && Wf(g) && |d.parent| == |g.cells| && SetsReach(d, g)
    requires 0 <= e.a < |g.cells| && 0 <= e.b < |g.cells|
    requires g' == if Root(d, e.a) != Root(d, e.b) then RemoveWallsAB(g, e.a, e.b, e.w) else g
    ensures Wf(g') && |g'.cells| == |g.cells| && SetsReach(d, g')
  {
    assert OpensOnly(g, g');
    forall x, y | 0 <= x < |g.cells| && 0 <= y < |g.cells| && Root(d, x) == Root(d, y)
      ensures Reachable(g', x, y)
    {
      OpensOnlyReachable(g, g', x, y);
    }
  }

  /** Opening a grid edge's wall pair on an unblocked grid lets its ends
      walk to each other. */
  lemma OpenedEdgeReach(g: Grid, e: Edge, g': Grid)
    requires Wf(g) && Unblocked(g) && 0 <= e.a < |g.cells| && e.b == Neighbor(g, e.a, e.w) && e.b != -1
    requires g' == RemoveWallsAB(g, e.a, e.b, e.w)
    ensures Reachable(g', e.a, e.b) && Reachable(g', e.b, e.a)
  {
    NeighborBack(g, e.a, e.w);
    assert CanStep(g', e.a, e.w);
    StepByDir(g', e.a, e.w);
    assert CanStep(g', e.b, Opposite(e.w));
    StepByDir(g', e.b, Opposite(e.w));
    ReachableRefl(g', e.a);
    ReachableRefl(g', e.b);
    ReachPrepend(g', e.a, e.b, e.b);
    ReachPrepend(g', e.b, e.a, e.a);
  }

  /** Two elements of one merged set can walk to each other when each old
      set could and the two united elements can. */
  lemma MergedPair(d: Dsu, d': Dsu, g: Grid, a: nat, b: nat, x: nat, y: nat)
    requires Valid(d) && Wf(g) && |d.parent| == |g.cells|
    requires a < |d.parent| && b < |d.parent| && x < |d.parent| && y < |d.parent|
    requires Merges(d, d', a, b) && (Root(d', a) == Root(d, a) || Root(d', a) == Root(d, b))
    requires SetsReach(d, g) && Reachable(g, a, b) && Reachable(g, b, a)
    requires Root(d', x) == Root(d', y)
    ensures Reachable(g, x, y)
  {
    var inX := Root(d, x) == Root(d, a) || Root(d, x) == Root(d, b);
    var inY := Root(d, y) == Root(d, a) || Root(d, y) == Root(d, b);
    if inX && inY {
      var p := if Root(d, x) == Root(d, a) then a else b;
      var q := if Root(d, y) == Root(d, a) then a else b;
      if p == q {
        ReachTrans(g, x, p, y);
      } else {
        ReachTrans(g, x, p, q);
        ReachTrans(g, x, q, y);
      }
    } else if inX || inY {
      assert false;
    }
  }

  /** One set left, every set walkable: the maze is connected. */
  lemma OneSetConnected(g: Grid, dsu: Dsu)
    requires Valid(dsu) && Wf(g) && |dsu.parent| == |g.cells| && SetsReach(dsu, g)
    requires forall i :: 0 <= i < |dsu.parent| ==> Root(dsu, i) == Root(dsu, 0)
    ensures Connected(g)
  {
    forall i, j | 0 <= i < |g.cells| && 0 <= j < |g.cells| ensures Reachable(g, i, j) {
      assert Root(dsu, i) == Root(dsu, j);
    }
  }

  lemma ScanInit(g0: Grid, order: seq<Edge>)
    requires Wf(g0) && InBounds(g0, order)
    ensures ScanInv(g0, order, 0, Reset(|g0.cells|), g0, [])
  {
  }

  lemma ScanDone(g0: Grid, order: seq<Edge>, dsu: Dsu, g: Grid, tree: seq<Edge>)
    requires ScanInv(g0, order, |order|, dsu, g, tree)
    ensures Joined(dsu, order)
  {
    assert order[..|order|] == order;
  }

  lemma ShuffledInBounds(g0: Grid, all: seq<Edge>, order: seq<Edge>)
    requires Wf(g0) && GridEdges(g0, all) && multiset(order) == multiset(all)
    ensures GridEdges(g0, order) && InBounds(g0, order)
  {
    forall k | 0 <= k < |order| ensures GridEdge(g0, order[k]) {
      assert order[k] in multiset(all);
    }
  }

  /** The kept edges are enumerated grid edges, so opening them keeps the
      walls symmetric. */
  lemma TreeFromList(g0: Grid, all: seq<Edge>, order: seq<Edge>, tree: seq<Edge>)
    requires Wf(g0) && WallsSymmetric(g0) && GridEdges(g0, all) && multiset(order) == multiset(all)
    requires forall k :: 0 <= k < |tree| ==> tree[k] in order
    ensures forall k :: 0 <= k < |tree| ==> tree[k] in all
    ensures GridEdges(g0, tree) && InBounds(g0, tree) && WallsSymmetric(OpenAll(g0, tree))
  {
    forall k | 0 <= k < |tree| ensures tree[k] in all {
      assert tree[k] in multiset(order);
    }
    OpenAllSymmetric(g0, tree);
  }

  lemma ScanStep(g0: Grid, order: seq<Edge>, i: int, dsu: Dsu, g: Grid, tree: seq<Edge>,
                 joined: bool, d': Dsu, g': Grid, tree': seq<Edge>)
    requires ScanInv(g0, order, i, dsu, g, tree) && i < |order|
    requires (joined, d') == Unite(dsu, order[i].a, order[i].b)
    requires g' == if joined then RemoveWallsAB(g, order[i].a, order[i].b, order[i].w) else g
    requires tree' == if joined then tree + [order[i]] else tree
    ensures ScanInv(g0, order, i + 1, d', g', tree')
  {
    ScanJoins(g0, order, i, dsu, d');
    if joined {
      ScanKeep(g0, order, i, dsu, g, tree, d');
    } else {
      UniteMerges(dsu, order[i].a, order[i].b);
      PairsStayJoined(dsu, d', order[i], tree);
    }
  }

  /** After a union, every scanned edge joins one set, the current one included. */
  lemma ScanJoins(g0: Grid, order: seq<Edge>, i: int, dsu: Dsu, d': Dsu)
    requires Wf(g0) && InBounds(g0, order) && 0 <= i < |order|
    requires Valid(dsu) && |dsu.parent| == |g0.cells| && Joined(dsu, order[..i])
    requires d' == Unite(dsu, order[i].a, order[i].b).1
    ensures Joined(d', order[..i + 1])
  {
    var e := order[i];
    UniteMerges(dsu, e.a, e.b);
    PairsStayJoined(dsu, d', e, order[..i]);
    assert order[..i + 1] == order[..i] + [e];
  }

  /** A successful union keeps the edge: the tree grows by one fresh edge and
      the number of sets drops by one. */
  lemma ScanKeep(g0: Grid, order: seq<Edge>, i: int, dsu: Dsu, g: Grid, tree: seq<Edge>, d': Dsu)
    requires ScanInv(g0, order, i, dsu, g, tree) && i < |order|
    requires Unite(dsu, order[i].a, order[i].b) == (true, d')
    ensures InBounds(g0, tree + [order[i]])
    ensures RemoveWallsAB(g, order[i].a, order[i].b, order[i].w) == OpenAll(g0, tree + [order[i]])
    ensures Joined(d', tree + [order[i]])
    ensures forall k :: 0 <= k < |tree + [order[i]]| ==> (tree + [order[i]])[k] in order
    ensures forall j, k :: 0 <= j < k < |tree + [order[i]]| ==> (tree + [order[i]])[j] != (tree + [order[i]])[k]
  {
    var e := order[i];
    TreeAppend(g0, tree, e);
    UniteMerges(dsu, e.a, e.b);
    PairsStayJoined(dsu, d', e, tree);
    FreshEdge(dsu, tree, e);
    DistinctAppend(tree, e);
    SubsetAppend(tree, order, e);
  }

  /** `d'` is `d` with the sets of `a` and `b` merged. */
  ghost predicate Merges(d: Dsu, d': Dsu, a: nat, b: nat)
    requires Valid(d) && a < |d.parent| && b < |d.parent|
  {
    && Valid(d') && |d'.parent| == |d.parent|
    && forall y {:trigger Root(d', y)} :: 0 <= y < |d.parent| ==>
      Root(d', y) == if Root(d, y) == Root(d, a) || Root(d, y) == Root(d, b) then Root(d', a) else Root(d, y)
  }

  lemma UniteMerges(d: Dsu, a: nat, b: nat)
    requires Valid(d) && a < |d.parent| && b < |d.parent|
    ensures Merges(d, Unite(d, a, b).1, a, b)
  {
  }

  /** An edge whose ends lie in different sets is not among edges that each
      join one set. */
  lemma FreshEdge(d: Dsu, es: seq<Edge>, e: Edge)
    requires Valid(d) && Joined(d, es)
    requires 0 <= e.a < |d.parent| && 0 <= e.b < |d.parent| && Root(d, e.a) != Root(d, e.b)
    ensures forall k :: 0 <= k < |es| ==> es[k] != e
  {
  }

  lemma SubsetAppend<T>(xs: seq<T>, ys: seq<T>, x: T)
    requires forall k :: 0 <= k < |xs| ==> xs[k] in ys
    requires x in ys
    ensures forall k :: 0 <= k < |xs + [x]| ==> (xs + [x])[k] in ys
  {
  }

  /** Pairs that share a set keep sharing one after the union of `e`'s ends,
      and `e` now joins one set too. */
  lemma PairsStayJoined(d: Dsu, d': Dsu, e: Edge, es: seq<Edge>)
    requires Valid(d) && 0 <= e.a < |d.parent| && 0 <= e.b < |d.parent|
    requires Merges(d, d', e.a, e.b) && Joined(d, es)
    ensures Valid(d') && |d'.parent| == |d.parent|
    ensures Joined(d', es) && Joined(d', es + [e])
  {
    forall k | 0 <= k < |es| ensures Root(d', es[k].a) == Root(d', es[k].b) {
      SameSetStays(d, d', e.a, e.b, es[k].a, es[k].b);
    }
    SameSetStays(d, d', e.a, e.b, e.a, e.b);
    JoinedAppend(d', es, e);
  }

  lemma JoinedAppend(d: Dsu, es: seq<Edge>, e: Edge)
    requires Valid(d) && Joined(d, es)
    requires 0 <= e.a < |d.parent| && 0 <= e.b < |d.parent| && Root(d, e.a) == Root(d, e.b)
    ensures Joined(d, es + [e])
  {
    assert (es + [e])[|es|] == e;
  }

  /** Two elements with one representative still share one after a union. */
  lemma SameSetStays(d: Dsu, d': Dsu, a: nat, b: nat, x: nat, y: nat)
    requires Valid(d) && a < |d.parent| && b < |d.parent| && x < |d.parent| && y < |d.parent|
    requires Merges(d, d', a, b)
    requires Root(d, x) == Root(d, y) || (x == a && y == b)
    ensures Root(d', x) == Root(d', y)
  {
  }

  /** Once every enumerated edge has been scanned, one set is left. */
  lemma AllJoined(g0: Grid, order: seq<Edge>, dsu: Dsu)
    requires Wf(g0) && Valid(dsu) && |dsu.parent| == |g0.cells|
    requires multiset(order) == multiset(KruskalEdges(g0)) && Joined(dsu, order)
    ensures |Roots(dsu)| == 1
    ensures forall i :: 0 <= i < |dsu.parent| ==> Root(dsu, i) == Root(dsu, 0)
  {
    DirJoined(g0, order, dsu, East);
    DirJoined(g0, order, dsu, South);
    AllSameRoot(g0, dsu);
    RowMajorBound(0, 0, g0.cols, g0.rows);
    OneRoot(dsu);
  }

  lemma DirJoined(g0: Grid, order: seq<Edge>, dsu: Dsu, w: Dir)
    requires Wf(g0) && Valid(dsu) && |dsu.parent| == |g0.cells|
    requires multiset(order) == multiset(KruskalEdges(g0)) && Joined(dsu, order)
    requires w == East || w == South
    ensures forall a :: 0 <= a < |g0.cells| && Neighbor(g0, a, w) != -1 ==> Root(dsu, a) == Root(dsu, Neighbor(g0, a, w))
  {
    forall a | 0 <= a < |g0.cells| && Neighbor(g0, a, w) != -1
      ensures Root(dsu, a) == Root(dsu, Neighbor(g0, a, w))
    {
      EdgeJoined(g0, order, dsu, a, w);
    }
  }

  lemma AllSameRoot(g0: Grid, dsu: Dsu)
    requires Wf(g0) && Valid(dsu) && |dsu.parent| == |g0.cells|
    requires forall a :: 0 <= a < |g0.cells| && Neighbor(g0, a, East) != -1 ==> Root(dsu, a) == Root(dsu, Neighbor(g0, a, East))
    requires forall a :: 0 <= a < |g0.cells| && Neighbor(g0, a, South) != -1 ==> Root(dsu, a) == Root(dsu, Neighbor(g0, a, South))
    ensures forall i :: 0 <= i < |dsu.parent| ==> Root(dsu, i) == Root(dsu, 0)
  {
    var lab := Classes(dsu, |g0.cells|);
    forall i | 0 <= i < |g0.cells|
      ensures Root(dsu, i) == Root(dsu, 0)
    {
      ConstantOnGrid(g0, lab, i);
    }
  }

  lemma EdgeJoined(g0: Grid, order: seq<Edge>, dsu: Dsu, a: int, w: Dir)
    requires Wf(g0) && Valid(dsu) && |dsu.parent| == |g0.cells|
    requires multiset(order) == multiset(KruskalEdges(g0)) && Joined(dsu, order)
    requires 0 <= a < |g0.cells| && (w == East || w == South) && Neighbor(g0, a, w) != -1
    ensures Root(dsu, a) == Root(dsu, Neighbor(g0, a, w))
  {
    KruskalEdgesComplete(g0, a, w);
    var e := Edge(a, Neighbor(g0, a, w), w);
    assert e in multiset(order);
    var k :| 0 <= k < |order| && order[k] == e;
  }

  /** A forest whose elements all share element 0's root has one root. */
  lemma OneRoot(dsu: Dsu)
    requires Valid(dsu) && |dsu.parent| > 0
    requires forall i :: 0 <= i < |dsu.parent| ==> Root(dsu, i) == Root(dsu, 0)
    ensures |Roots(dsu)| == 1
  {
    forall r | r in Roots(dsu)
      ensures r == Root(dsu, 0)
    {
      assert Root(dsu, r) == r;
    }
    assert Roots(dsu) == {Root(dsu, 0)};
  }
}
