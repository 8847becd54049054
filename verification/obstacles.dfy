/** `randomizeObstacles` and `clearObstacles`. The obstacle pass clears every
    obstacle, enumerates every simple start-to-end path through open walls,
    and then either blocks cells that most paths share or blocks cells that no
    path uses. */
module Obstacles {
  import opened Grid
  import opened Carving
  import opened Choice
  import opened Endpoints

  /** `r` has `g`'s shape, walls and visited flags; only obstacles may
      differ. */
  ghost predicate Layout(g: Grid, r: Grid)
    requires Wf(g) && Wf(r)
  {
    && r.cols == g.cols && r.rows == g.rows
    && forall i, d: Dir :: 0 <= i < |g.cells| ==>
         Wall(r.cells[i], d) == Wall(g.cells[i], d) && r.cells[i].visited == g.cells[i].visited
  }

  lemma LayoutTransitive(g: Grid, h: Grid, r: Grid)
    requires Wf(g) && Wf(h) && Wf(r) && Layout(g, h) && Layout(h, r)
    ensures Layout(g, r)
  {
  }

  lemma SetBlockedLayout(g: Grid, i: int, b: bool)
    requires Wf(g) && 0 <= i < |g.cells|
    ensures Layout(g, SetBlocked(g, i, b))
  {
    var r := SetBlocked(g, i, b);
    forall j, d: Dir | 0 <= j < |g.cells|
      ensures Wall(r.cells[j], d) == Wall(g.cells[j], d) && r.cells[j].visited == g.cells[j].visited
    {
      if j != i {
        assert r.cells[j] == g.cells[j];
      }
    }
  }

  /** `clearObstacles`: every cell unblocked; walls and visited flags kept. */
  function ClearObstacles(g: Grid): (r: Grid)
    requires Wf(g)
    ensures Wf(r) && Layout(g, r)
    ensures forall i :: 0 <= i < |r.cells| ==> !r.cells[i].blocked
  {
    g.(cells := seq(|g.cells|, i requires 0 <= i < |g.cells| => g.cells[i].(blocked := false)))
  }

  /** Clearing twice is clearing once, and clearing never disturbs the walls'
      mirror symmetry. */
  lemma ClearObstaclesIdempotent(g: Grid)
    requires Wf(g)
    ensures ClearObstacles(ClearObstacles(g)) == ClearObstacles(g)
    ensures WallsSymmetric(g) ==> WallsSymmetric(ClearObstacles(g))
  {
    var h := ClearObstacles(g);
    var h2 := ClearObstacles(h);
    forall i | 0 <= i < |h.cells| ensures h2.cells[i] == h.cells[i] {
      SameCell(h2.cells[i], h.cells[i]);
    }
    if WallsSymmetric(g) {
      forall i, d: Dir | 0 <= i < |h.cells| && Neighbor(h, i, d) != -1
        ensures Wall(h.cells[i], d) == Wall(h.cells[Neighbor(h, i, d)], Opposite(d))
      {
        assert Neighbor(h, i, d) == Neighbor(g, i, d);
      }
    }
  }

  // ---------------------------------------------------------------------
  // The path enumeration
  // ---------------------------------------------------------------------

  /** The enumeration may move from `u` in direction `d`: the neighbour is on
      the grid and the wall between them is gone. */
  predicate Open(g: Grid, u: int, d: Dir)
    requires Wf(g) && 0 <= u < |g.cells|
  {
    Neighbor(g, u, d) != -1 && !Wall(g.cells[u], d)
  }

  ghost predicate Linked(g: Grid, u: int, v: int)
    requires Wf(g) && 0 <= u < |g.cells|
  {
    exists d: Dir :: Open(g, u, d) && Neighbor(g, u, d) == v
  }

  ghost predicate Distinct(p: seq<int>) {
    forall i, j :: 0 <= i < j < |p| ==> p[i] != p[j]
  }

  /** A path of distinct on-grid cells from `s`, each linked to the next. */
  ghost predicate SimpleFrom(g: Grid, p: seq<int>, s: int)
    requires Wf(g)
  {
    && |p| >= 1 && p[0] == s
    && (forall k :: 0 <= k < |p| ==> 0 <= p[k] < |g.cells|)
    && Distinct(p)
    && (forall k :: 0 <= k < |p| - 1 ==> Linked(g, p[k], p[k + 1]))
  }

  /** A simple path from `s` that ends at `t`. */
  ghost predicate SimplePath(g: Grid, p: seq<int>, s: int, t: int)
    requires Wf(g)
  {
    SimpleFrom(g, p, s) && p[|p| - 1] == t
  }

  /** Every path that reaches `end` and extends `path`; the recursion of
      `findAllPaths`, which stops a path as soon as it reaches `end`. */
  function Paths(g: Grid, path: seq<int>, end: int): (r: seq<seq<int>>)
    requires Wf(g) && |path| >= 1 && SimpleFrom(g, path, path[0]) && |path| <= |g.cells|
    ensures forall k :: 0 <= k < |r| ==> Extends(g, r[k], path, end)
    decreases |g.cells| - |path|, 5
  {
    if path[|path| - 1] == end then
      assert Extends(g, path, path, end);
      [path]
    else PathsFrom(g, path, end, 0)
  }

  /** `q` is a simple path to `end` that starts with `path`. */
  ghost predicate Extends(g: Grid, q: seq<int>, path: seq<int>, end: int)
    requires Wf(g) && |path| >= 1
  {
    SimplePath(g, q, path[0], end) && |path| <= |q| && q[..|path|] == path
  }

  /** The paths through the directions `d` to west, in direction order. */
  function PathsFrom(g: Grid, path: seq<int>, end: int, d: nat): (r: seq<seq<int>>)
    requires Wf(g) && |path| >= 1 && SimpleFrom(g, path, path[0]) && |path| <= |g.cells| && d <= 4
    ensures forall k :: 0 <= k < |r| ==> Extends(g, r[k], path, end)
    decreases |g.cells| - |path|, 4 - d
  {
    if d == 4 then []
    else
      var rest := PathsFrom(g, path, end, d + 1);
      var u := path[|path| - 1];
      var next := Neighbor(g, u, d);
      if Open(g, u, d) && next !in path then
        GrowPath(g, path, d);
        var here := Paths(g, path + [next], end);
        ShrinkExtends(g, here, path, next, end);
        JoinExtends(g, here, rest, path, end);
        here + rest
      else rest
  }

  /** Stepping through an open wall to a new cell keeps a path simple and
      within the grid's cell count. */
  lemma GrowPath(g: Grid, path: seq<int>, d: Dir)
    requires Wf(g) && |path| >= 1 && SimpleFrom(g, path, path[0])
    requires Open(g, path[|path| - 1], d) && Neighbor(g, path[|path| - 1], d) !in path
    ensures SimpleFrom(g, path + [Neighbor(g, path[|path| - 1], d)], path[0])
    ensures |path| + 1 <= |g.cells|
  {
    var u := path[|path| - 1];
    var p := path + [Neighbor(g, u, d)];
    DistinctAppend(path, Neighbor(g, u, d));
    assert Linked(g, p[|path| - 1], p[|path|]);
    DistinctBound(p, |g.cells|);
  }

  lemma ShrinkExtends(g: Grid, qs: seq<seq<int>>, path: seq<int>, next: int, end: int)
    requires Wf(g) && |path| >= 1
    requires forall k :: 0 <= k < |qs| ==> Extends(g, qs[k], path + [next], end)
    ensures forall k :: 0 <= k < |qs| ==> Extends(g, qs[k], path, end)
  {
    forall k | 0 <= k < |qs| ensures Extends(g, qs[k], path, end) {
      assert qs[k][..|path|] == qs[k][..|path| + 1][..|path|];
    }
  }

  lemma JoinExtends(g: Grid, a: seq<seq<int>>, b: seq<seq<int>>, path: seq<int>, end: int)
    requires Wf(g) && |path| >= 1
    requires forall k :: 0 <= k < |a| ==> Extends(g, a[k], path, end)
    requires forall k :: 0 <= k < |b| ==> Extends(g, b[k], path, end)
    ensures forall k :: 0 <= k < |a + b| ==> Extends(g, (a + b)[k], path, end)
  {
  }

  /** `findAllPaths` from the start with the start marked visited. */
  function AllPaths(g: Grid, start: int, end: int): (r: seq<seq<int>>)
    requires Wf(g) && 0 <= start < |g.cells|
    ensures forall k :: 0 <= k < |r| ==> SimplePath(g, r[k], start, end)
  {
    assert SimpleFrom(g, [start], start);
    var r := Paths(g, [start], end);
    assert forall k :: 0 <= k < |r| ==> Extends(g, r[k], [start], end);
    r
  }

  // ---------------------------------------------------------------------
  // The enumeration is complete
  // ---------------------------------------------------------------------

  /** Every simple path to `end` that starts with `path` is enumerated. */
  lemma {:induction false} PathsComplete(g: Grid, path: seq<int>, end: int, q: seq<int>)
    requires Wf(g) && |path| >= 1 && SimpleFrom(g, path, path[0]) && |path| <= |g.cells|
    requires Extends(g, q, path, end)
    ensures q in Paths(g, path, end)
    decreases |g.cells| - |path|
  {
    var n := |path|;
    var u := path[n - 1];
    assert q[n - 1] == u;
    if u == end {
      assert q[n - 1] == q[|q| - 1];
      assert q == q[..n];
    } else {
      var v := q[n];
      assert Linked(g, q[n - 1], q[n]);
      var d: Dir :| Open(g, u, d) && Neighbor(g, u, d) == v;
      assert v !in path by {
        forall k | 0 <= k < n ensures path[k] != v {
          assert path[k] == q[k];
        }
      }
      GrowPath(g, path, d);
      assert q[..n + 1] == path + [v];
      PathsComplete(g, path + [v], end, q);
      PathsFromHas(g, path, end, 0, d, q);
    }
  }

  /** A path enumerated through direction `d` is among the paths through the
      directions from `d0` on. */
  lemma {:induction false} PathsFromHas(g: Grid, path: seq<int>, end: int, d0: nat, d: Dir, q: seq<int>)
    requires Wf(g) && |path| >= 1 && SimpleFrom(g, path, path[0]) && |path| + 1 <= |g.cells| && d0 <= d
    requires Open(g, path[|path| - 1], d) && Neighbor(g, path[|path| - 1], d) !in path
    requires SimpleFrom(g, path + [Neighbor(g, path[|path| - 1], d)], path[0])
    requires q in Paths(g, path + [Neighbor(g, path[|path| - 1], d)], end)
    ensures q in PathsFrom(g, path, end, d0)
    decreases d - d0
  {
    if d0 < d {
      PathsFromHas(g, path, end, d0 + 1, d, q);
    }
  }

  /** `findAllPaths` finds every simple path from the start to the end. */
  lemma AllPathsComplete(g: Grid, start: int, end: int, q: seq<int>)
    requires Wf(g) && 0 <= start < |g.cells| && SimplePath(g, q, start, end)
    ensures q in AllPaths(g, start, end)
  {
    assert SimpleFrom(g, [start], start);
    assert q[..1] == [start];
    PathsComplete(g, [start], end, q);
  }

  // ---------------------------------------------------------------------
  // Paths exist exactly when the end is reachable
  // ---------------------------------------------------------------------

  /** A traversable move crosses an open wall. */
  lemma StepLinked(g: Grid, u: int, v: int)
    requires Wf(g) && 0 <= u < |g.cells| && Step(g, u, v)
    ensures Linked(g, u, v)
  {
    if CanStep(g, u, North) && Neighbor(g, u, North) == v {
      assert Open(g, u, North);
    } else if CanStep(g, u, East) && Neighbor(g, u, East) == v {
      assert Open(g, u, East);
    } else if CanStep(g, u, South) && Neighbor(g, u, South) == v {
      assert Open(g, u, South);
    } else {
      assert Open(g, u, West);
    }
  }

  /** An open wall into an unblocked cell is a traversable move. */
  lemma LinkedStep(g: Grid, u: int, v: int)
    requires Wf(g) && 0 <= u < |g.cells| && Linked(g, u, v) && 0 <= v < |g.cells| && !g.cells[v].blocked
    ensures Step(g, u, v)
  {
    var d: Dir :| Open(g, u, d) && Neighbor(g, u, d) == v;
    StepByDir(g, u, d);
  }

  /** Cutting out the loop between two visits of one cell shortens a walk
      into a simple path with the same ends. */
  lemma {:induction false} ShortenWalk(g: Grid, p: seq<int>, s: int, t: int)
    requires Wf(g) && WalkFromTo(g, p, s, t)
    ensures exists q :: SimplePath(g, q, s, t)
    decreases |p|
  {
    if Distinct(p) {
      forall k | 0 <= k < |p| - 1 ensures Linked(g, p[k], p[k + 1]) {
        StepLinked(g, p[k], p[k + 1]);
      }
      assert SimplePath(g, p, s, t);
    } else {
      var i, j :| 0 <= i < j < |p| && p[i] == p[j];
      var q := p[..i] + p[j..];
      assert |q| == |p| - (j - i);
      forall k | 0 <= k < |q| - 1 ensures Step(g, q[k], q[k + 1]) {
        if k < i - 1 {
          assert q[k] == p[k] && q[k + 1] == p[k + 1];
        } else if k == i - 1 {
          assert q[k] == p[k] && q[k + 1] == p[i];
        } else {
          assert q[k] == p[k + j - i] && q[k + 1] == p[k + 1 + j - i];
        }
      }
      assert q[0] == s by {
        if i == 0 {
          assert q[0] == p[j];
        }
      }
      assert q[|q| - 1] == p[|p| - 1];
      ShortenWalk(g, q, s, t);
    }
  }

  /** On a grid with no obstacle, a simple path is a walk. */
  lemma SimplePathWalk(g: Grid, q: seq<int>, s: int, t: int)
    requires Wf(g) && SimplePath(g, q, s, t)
    requires forall k :: 0 <= k < |q| ==> !g.cells[q[k]].blocked
    ensures WalkFromTo(g, q, s, t)
  {
    forall k | 0 <= k < |q| - 1 ensures Step(g, q[k], q[k + 1]) {
      LinkedStep(g, q[k], q[k + 1]);
    }
  }

  /** On a grid with no obstacle the enumeration is empty exactly when the
      end cannot be reached from the start. */
  lemma NoPathsUnreachable(g: Grid, start: int, end: int)
    requires Wf(g) && 0 <= start < |g.cells|
    requires forall i :: 0 <= i < |g.cells| ==> !g.cells[i].blocked
    ensures |AllPaths(g, start, end)| == 0 <==> !Reachable(g, start, end)
  {
    var ps := AllPaths(g, start, end);
    if Reachable(g, start, end) {
      var p :| WalkFromTo(g, p, start, end);
      ShortenWalk(g, p, start, end);
      var q :| SimplePath(g, q, start, end);
      AllPathsComplete(g, start, end, q);
    }
    if |ps| > 0 {
      SimplePathWalk(g, ps[0], start, end);
    }
  }

  // ---------------------------------------------------------------------
  // Choosing the cells to block
  // ---------------------------------------------------------------------

  /** The number of times `c` occurs across all paths: the `cellFrequency`
      tally, which counts occurrences, not paths. */
  function Freq(paths: seq<seq<int>>, c: int): (r: nat)
    ensures r == 0 <==> forall k :: 0 <= k < |paths| ==> c !in paths[k]
  {
    if paths == [] then 0
    else
      assert forall k :: 0 < k < |paths| ==> paths[k] == paths[1..][k - 1];
      multiset(paths[0])[c] + Freq(paths[1..], c)
  }

  /** `pathCells`: the cells some path visits. */
  predicate OnSomePath(paths: seq<seq<int>>, c: int) {
    exists k :: 0 <= k < |paths| && c in paths[k]
  }

  /** A choke point: neither end, visited by some path, and with a tally of at
      least 70 per cent of the path count. The tally includes only cells other
      than the ends, and the comparison `freq >= pathCount * 0.7f` is the exact
      `10 * freq >= 7 * pathCount` for every count a grid can produce. */
  predicate Critical(paths: seq<seq<int>>, start: int, end: int, c: int) {
    c != start && c != end && Freq(paths, c) > 0 && 10 * Freq(paths, c) >= 7 * |paths|
  }

  /** A cell no path visits, other than the ends. */
  predicate Safe(paths: seq<seq<int>>, start: int, end: int, c: int) {
    !OnSomePath(paths, c) && c != start && c != end
  }

  /** The cells below `n` that `keep` accepts, in ascending order: the order in
      which `std::set` and the index scan list them. */
  function Select(n: nat, keep: int -> bool): (r: seq<int>)
    ensures forall c :: c in r <==> 0 <= c < n && keep(c)
    ensures forall i, j :: 0 <= i < j < |r| ==> r[i] < r[j]
    ensures forall k :: 0 <= k < |r| ==> 0 <= r[k] < n
  {
    if n == 0 then []
    else
      var init := Select(n - 1, keep);
      assert forall i :: 0 <= i < |init| ==> init[i] in init;
      init + (if keep(n - 1) then [n - 1] else [])
  }

  /** `std::min((int)(size * density), size)` with the density `num / den`;
      the cast truncates toward zero, so a negative density blocks nothing. */
  function ObstacleCount(size: nat, num: int, den: int): (r: nat)
    requires den > 0
    ensures r <= size
    ensures num >= 0 ==> r == Min(size * num / den, size)
  {
    if num <= 0 then 0 else Min(size * num / den, size)
  }

  /** `(int)(size * 0.6f)`: sixty per cent, rounded down. */
  function SixTenths(size: nat): (r: nat)
    ensures r <= size && 10 * r <= 6 * size < 10 * (r + 1)
  {
    6 * size / 10
  }

  /** The grid with the first `n` cells of `xs` blocked. */
  function BlockFirst(g: Grid, xs: seq<int>, n: nat): (r: Grid)
    requires Wf(g) && n <= |xs| && forall k :: 0 <= k < |xs| ==> 0 <= xs[k] < |g.cells|
    ensures Wf(r) && r.cols == g.cols && r.rows == g.rows
    ensures forall i :: 0 <= i < |g.cells| ==> r.cells[i].blocked == (g.cells[i].blocked || i in xs[..n])
    ensures Layout(g, r)
  {
    if n == 0 then g
    else
      assert xs[..n] == xs[..n - 1] + [xs[n - 1]];
      var h := BlockFirst(g, xs, n - 1);
      var r := SetBlocked(h, xs[n - 1], true);
      assert forall i :: 0 <= i < |g.cells| ==> r.cells[i] == h.cells[i] || i == xs[n - 1];
      SetBlockedLayout(h, xs[n - 1], true);
      LayoutTransitive(g, h, r);
      r
  }

  // ---------------------------------------------------------------------
  // randomizeObstacles
  // ---------------------------------------------------------------------

  /** The paths `randomizeObstacles` enumerates: those of the cleared grid. */
  function StartEndPaths(g: Grid, start: int, end: int): (r: seq<seq<int>>)
    requires Wf(g) && 0 <= start < |g.cells|
    ensures forall k :: 0 <= k < |r| ==> SimplePath(ClearObstacles(g), r[k], start, end)
  {
    AllPaths(ClearObstacles(g), start, end)
  }

  /** A cell the chosen strategy may block: a choke point when every path is
      to be cut, a cell off every path otherwise. */
  predicate MayBlock(paths: seq<seq<int>>, start: int, end: int, blockAll: bool, c: int) {
    if blockAll then Critical(paths, start, end, c) else Safe(paths, start, end, c)
  }

  /** The cells the chosen strategy may block, in ascending order. */
  function Pool(paths: seq<seq<int>>, start: int, end: int, blockAll: bool, n: nat): (r: seq<int>)
    ensures forall c :: c in r <==> 0 <= c < n && MayBlock(paths, start, end, blockAll, c)
    ensures forall i, j :: 0 <= i < j < |r| ==> r[i] != r[j]
    ensures forall k :: 0 <= k < |r| ==> 0 <= r[k] < n
  {
    if blockAll then Select(n, c => Critical(paths, start, end, c))
    else Select(n, c => Safe(paths, start, end, c))
  }

  /** How many cells of the pool the strategy blocks. */
  function Quota(size: nat, blockAll: bool, num: int, den: int): (r: nat)
    requires den > 0
    ensures r <= size
  {
    if blockAll then SixTenths(size) else ObstacleCount(size, num, den)
  }

  /** `randomizeObstacles(num / den)`. `blockAll` is the outcome of the 30 per
      cent draw, and `draws` drive the shuffle of the pool. Every obstacle is
      cleared; with no path between the ends nothing more happens; otherwise
      the first cells of the shuffled pool are blocked. */
  function RandomizeObstacles(g: Grid, start: int, end: int, blockAll: bool, draws: seq<nat>, num: int, den: int): (r: Grid)
    requires Wf(g) && 0 <= start < |g.cells| && 0 <= end < |g.cells| && den > 0
    ensures Wf(r) && r.cols == g.cols && r.rows == g.rows
    ensures Layout(g, r)
    ensures !r.cells[start].blocked && !r.cells[end].blocked
    ensures |StartEndPaths(g, start, end)| == 0 ==> forall i :: 0 <= i < |r.cells| ==> !r.cells[i].blocked
    ensures forall i :: 0 <= i < |r.cells| && r.cells[i].blocked ==>
      MayBlock(StartEndPaths(g, start, end), start, end, blockAll, i)
  {
    var h := ClearObstacles(g);
    var paths := StartEndPaths(g, start, end);
    if |paths| == 0 then h
    else
      var r := PlaceObstacles(h, paths, start, end, blockAll, draws, num, den);
      LayoutTransitive(g, h, r);
      r
  }

  /** The pass once the obstacles are cleared and the paths enumerated: the
      first cells of the shuffled pool are blocked, and nothing else is. */
  function PlaceObstacles(h: Grid, paths: seq<seq<int>>, start: int, end: int, blockAll: bool, draws: seq<nat>, num: int, den: int)
    : (r: Grid)
    requires Wf(h) && den > 0
    requires forall i :: 0 <= i < |h.cells| ==> !h.cells[i].blocked
    ensures Wf(r) && r.cols == h.cols && r.rows == h.rows && Layout(h, r)
    ensures forall i :: 0 <= i < |r.cells| && r.cells[i].blocked ==> MayBlock(paths, start, end, blockAll, i)
  {
    var pool := Pool(paths, start, end, blockAll, |h.cells|);
    Scatter(h, pool, draws, Quota(|pool|, blockAll, num, den))
  }

  /** The grid with the first `n` cells of the shuffled pool blocked. */
  function Scatter(g: Grid, pool: seq<int>, draws: seq<nat>, n: nat): (r: Grid)
    requires Wf(g) && n <= |pool| && forall k :: 0 <= k < |pool| ==> 0 <= pool[k] < |g.cells|
    ensures Wf(r) && r.cols == g.cols && r.rows == g.rows
    ensures forall i :: 0 <= i < |g.cells| && r.cells[i].blocked ==> g.cells[i].blocked || i in pool
    ensures forall i :: 0 <= i < |g.cells| && g.cells[i].blocked ==> r.cells[i].blocked
    ensures Layout(g, r)
  {
    var order := Shuffle(pool, draws);
    assert forall k :: 0 <= k < |order| ==> order[k] in multiset(pool);
    BlockFirst(g, order, n)
  }

  /** The obstacles of a grid. */
  function Obstacles(g: Grid): (r: set<int>)
    ensures forall i :: i in r <==> 0 <= i < |g.cells| && g.cells[i].blocked
  {
    set i | 0 <= i < |g.cells| && g.cells[i].blocked
  }

  /** Scattering `n` cells of a duplicate-free pool over a grid with no
      obstacle places exactly `n` obstacles. */
  lemma ScatterCount(g: Grid, pool: seq<int>, draws: seq<nat>, n: nat)
    requires Wf(g) && n <= |pool| && forall k :: 0 <= k < |pool| ==> 0 <= pool[k] < |g.cells|
    requires forall i, j :: 0 <= i < j < |pool| ==> pool[i] != pool[j]
    requires forall i :: 0 <= i < |g.cells| ==> !g.cells[i].blocked
    ensures |Obstacles(Scatter(g, pool, draws, n))| == n
  {
    var order := Shuffle(pool, draws);
    ShuffleKeeps(pool, draws, n);
    assert forall k :: 0 <= k < |order| ==> order[k] in multiset(pool);
    BlockFirstCount(g, order, n);
  }

  /** Blocking the first `n` cells of a list whose prefix is duplicate-free,
      on a grid with no obstacle, places exactly `n` obstacles. */
  lemma BlockFirstCount(g: Grid, xs: seq<int>, n: nat)
    requires Wf(g) && n <= |xs| && forall k :: 0 <= k < |xs| ==> 0 <= xs[k] < |g.cells|
    requires forall i, j :: 0 <= i < j < |xs[..n]| ==> xs[..n][i] != xs[..n][j]
    requires forall i :: 0 <= i < |g.cells| ==> !g.cells[i].blocked
    ensures |Obstacles(BlockFirst(g, xs, n))| == n
  {
    var first := xs[..n];
    var r := BlockFirst(g, xs, n);
    assert Obstacles(r) == set k | 0 <= k < |first| :: first[k];
    DistinctSetSize(first);
  }

  /** How many obstacles `randomizeObstacles` places: none without a path,
      otherwise sixty per cent of the choke points, or the density's share of
      the cells off every path. */
  lemma RandomizeCount(g: Grid, start: int, end: int, blockAll: bool, draws: seq<nat>, num: int, den: int)
    requires Wf(g) && 0 <= start < |g.cells| && 0 <= end < |g.cells| && den > 0
    ensures var paths := StartEndPaths(g, start, end);
      |Obstacles(RandomizeObstacles(g, start, end, blockAll, draws, num, den))|
      == if |paths| == 0 then 0 else Quota(|Pool(paths, start, end, blockAll, |g.cells|)|, blockAll, num, den)
  {
    var paths := StartEndPaths(g, start, end);
    var h := ClearObstacles(g);
    if |paths| == 0 {
      assert Obstacles(h) == {};
    } else {
      var pool := Pool(paths, start, end, blockAll, |g.cells|);
      ScatterCount(h, pool, draws, Quota(|pool|, blockAll, num, den));
    }
  }

  /** Two grids with one layout link the same cells. */
  lemma LayoutSimplePath(g: Grid, r: Grid, q: seq<int>, s: int, t: int)
    requires Wf(g) && Wf(r) && Layout(g, r) && SimplePath(g, q, s, t)
    ensures SimplePath(r, q, s, t)
  {
    forall k | 0 <= k < |q| - 1 ensures Linked(r, q[k], q[k + 1]) {
      var d: Dir :| Open(g, q[k], d) && Neighbor(g, q[k], d) == q[k + 1];
      assert Open(r, q[k], d) && Neighbor(r, q[k], d) == q[k + 1];
    }
  }

  /** An obstacle can only take a move away: a move on a grid is a move on
      the same layout with no obstacles. */
  lemma UnblockedStep(g: Grid, r: Grid, u: int, v: int)
    requires Wf(g) && Wf(r) && Layout(g, r) && 0 <= u < |g.cells| && Step(r, u, v)
    requires forall i :: 0 <= i < |g.cells| ==> !g.cells[i].blocked
    ensures Step(g, u, v)
  {
    StepLinked(r, u, v);
    var d: Dir :| Open(r, u, d) && Neighbor(r, u, d) == v;
    assert Open(g, u, d) && Neighbor(g, u, d) == v;
    LinkedStep(g, u, v);
  }

  /** When the strategy keeps the paths, every enumerated path is still a
      walk, and the end is reachable after the pass exactly when it was
      reachable with no obstacles. */
  lemma PreserveKeepsPaths(g: Grid, start: int, end: int, draws: seq<nat>, num: int, den: int)
    requires Wf(g) && 0 <= start < |g.cells| && 0 <= end < |g.cells| && den > 0
    ensures var r := RandomizeObstacles(g, start, end, false, draws, num, den);
      var paths := StartEndPaths(g, start, end);
      && (forall k :: 0 <= k < |paths| ==> WalkFromTo(r, paths[k], start, end))
      && (Reachable(r, start, end) <==> Reachable(ClearObstacles(g), start, end))
  {
    var r := RandomizeObstacles(g, start, end, false, draws, num, den);
    var h := ClearObstacles(g);
    var paths := StartEndPaths(g, start, end);
    forall k | 0 <= k < |paths| ensures WalkFromTo(r, paths[k], start, end) {
      LayoutSimplePath(h, r, paths[k], start, end);
      forall m | 0 <= m < |paths[k]| ensures !r.cells[paths[k][m]].blocked {
        assert OnSomePath(paths, paths[k][m]);
      }
      SimplePathWalk(r, paths[k], start, end);
    }
    NoPathsUnreachable(h, start, end);
    if Reachable(r, start, end) {
      var p :| WalkFromTo(r, p, start, end);
      forall k | 0 <= k < |p| - 1 ensures Step(h, p[k], p[k + 1]) {
        UnblockedStep(h, r, p[k], p[k + 1]);
      }
      assert WalkFromTo(h, p, start, end);
    }
    if Reachable(h, start, end) {
      assert WalkFromTo(r, paths[0], start, end);
    }
  }
}
