/** The two passes that run after a generator: `addMazeComplexity` knocks a few
    extra walls out to create loops, and `ensureMultiplePathways` cuts
    L-shaped corridors from the start and the end cell toward up to seven
    positions in the 5 by 5 box around each. Both only remove walls, so each is
    described by the list of edges it opens. */
module PostPass {
  import opened Grid
  import opened Carving
  import opened Choice

  // ---------------------------------------------------------------------
  // addMazeComplexity
  // ---------------------------------------------------------------------

  /** `max(2, cells / 50)`: how many rounds `addMazeComplexity` runs. */
  function LoopCount(g: Grid): nat {
    if |g.cells| / 50 > 2 then |g.cells| / 50 else 2
  }

  /** The directions, north to west, in which cell `i` still has a wall toward
      a neighbour on the grid. */
  function PossibleWalls(g: Grid, i: int): (r: seq<Dir>)
    requires Wf(g) && 0 <= i < |g.cells|
    ensures forall d: Dir :: d in r <==> Neighbor(g, i, d) != -1 && Wall(g.cells[i], d)
    ensures forall j, k :: 0 <= j < k < |r| ==> r[j] < r[k]
  {
    WallsFrom(g, i, 0)
  }

  function WallsFrom(g: Grid, i: int, d: nat): (r: seq<Dir>)
    requires Wf(g) && 0 <= i < |g.cells| && d <= 4
    ensures forall e: Dir :: e in r <==> d <= e && Neighbor(g, i, e) != -1 && Wall(g.cells[i], e)
    ensures forall k :: 0 <= k < |r| ==> d <= r[k]
    ensures forall j, k :: 0 <= j < k < |r| ==> r[j] < r[k]
    decreases 4 - d
  {
    if d == 4 then []
    else if Neighbor(g, i, d) != -1 && Wall(g.cells[i], d) then [d as Dir] + WallsFrom(g, i, d + 1)
    else WallsFrom(g, i, d + 1)
  }

  /** One round with the draw cursor at `k`: the cell drawn, skipped when it is
      the start or the end, and otherwise one of its standing walls toward an
      on-grid neighbour, drawn in turn. Yields the edge opened, if any, and the
      next cursor. */
  function ComplexityRound(g: Grid, start: int, end: int, draws: seq<nat>, k: nat): (r: (seq<Edge>, nat))
    requires Wf(g)
    ensures |r.0| <= 1 && r.1 == k + 1 + |r.0|
    ensures forall e <- r.0 :: GridEdge(g, e) && Wall(g.cells[e.a], e.w) && Avoids(e, start, end)
    ensures r.0 != [] ==> r.0[0].a == Pick(draws, k, |g.cells|)
    ensures r.0 == [] ==> (var c := Pick(draws, k, |g.cells|);
      c == start || c == end || forall d: Dir :: Neighbor(g, c, d) == -1 || !Wall(g.cells[c], d))
  {
    var c := Pick(draws, k, |g.cells|);
    if c == start || c == end then ([], k + 1)
    else
      var ws := PossibleWalls(g, c);
      if ws == [] then ([], k + 1)
      else
        var d := ws[Pick(draws, k + 1, |ws|)];
        ([Edge(c, Neighbor(g, c, d), d)], k + 2)
  }

  /** `left` more rounds on `g0` with `acc` already opened. Returns every
      edge opened since `g0`: `acc`, then the new ones. */
  function ComplexityRounds(g0: Grid, start: int, end: int, draws: seq<nat>, left: nat, k: nat, acc: seq<Edge>)
    : (r: seq<Edge>)
    requires Wf(g0) && GridEdges(g0, acc) && InBounds(g0, acc)
    ensures |acc| <= |r| <= |acc| + left && r[..|acc|] == acc
    ensures GridEdges(g0, r) && InBounds(g0, r)
    ensures forall j :: |acc| <= j < |r| ==> Avoids(r[j], start, end)
    decreases left
  {
    if left == 0 then acc
    else
      var (es, k') := ComplexityRound(OpenAll(g0, acc), start, end, draws, k);
      if es == [] then ComplexityRounds(g0, start, end, draws, left - 1, k', acc)
      else
        var e := es[0];
        AccExtend(g0, acc, e);
        var r := ComplexityRounds(g0, start, end, draws, left - 1, k', acc + [e]);
        PrefixShrink(r, acc, e);
        TailAvoids(r, acc, e, start, end);
        r
  }

  /** The edge leaves from a cell other than the start and the end. Only the
      drawn cell `a` is tested: the neighbour `b` it opens into may be the
      start or the end. */
  predicate Avoids(e: Edge, start: int, end: int) {
    e.a != start && e.a != end
  }

  lemma TailAvoids(xs: seq<Edge>, acc: seq<Edge>, e: Edge, start: int, end: int)
    requires |acc| < |xs| && xs[|acc|] == e && Avoids(e, start, end)
    requires forall j :: |acc| + 1 <= j < |xs| ==> Avoids(xs[j], start, end)
    ensures forall j :: |acc| <= j < |xs| ==> Avoids(xs[j], start, end)
  {
  }

  /** An edge of the grid with some walls opened is an edge of the grid. */
  lemma AccExtend(g0: Grid, acc: seq<Edge>, e: Edge)
    requires Wf(g0) && GridEdges(g0, acc) && InBounds(g0, acc) && GridEdge(OpenAll(g0, acc), e)
    ensures GridEdges(g0, acc + [e]) && InBounds(g0, acc + [e])
  {
    assert GridEdge(g0, e);
  }

  lemma PrefixShrink<T>(xs: seq<T>, acc: seq<T>, e: T)
    requires |acc| + 1 <= |xs| && xs[..|acc| + 1] == acc + [e]
    ensures xs[..|acc|] == acc && xs[|acc|] == e
  {
    assert xs[..|acc|] == xs[..|acc| + 1][..|acc|];
  }

  /** `addMazeComplexity`: the grid after `LoopCount` rounds, and the edges it
      opened. */
  function AddMazeComplexity(g: Grid, start: int, end: int, draws: seq<nat>): (r: (Grid, seq<Edge>))
    requires Wf(g)
    ensures |r.1| <= LoopCount(g)
    ensures GridEdges(g, r.1) && InBounds(g, r.1) && r.0 == OpenAll(g, r.1)
    ensures forall j :: 0 <= j < |r.1| ==> Avoids(r.1[j], start, end)
  {
    var es := ComplexityRounds(g, start, end, draws, LoopCount(g), 0, []);
    (OpenAll(g, es), es)
  }

  // ---------------------------------------------------------------------
  // ensureMultiplePathways
  // ---------------------------------------------------------------------

  /** How many corridors `ensureMultiplePathways` cuts around each end point. */
  const MinPathways: nat := 7

  /** `(tx, ty)` lies on the grid, within two columns and two rows of
      `(x, y)`, and is not `(x, y)` itself. */
  predicate InBox(cols: int, rows: int, x: int, y: int, t: (int, int)) {
    && 0 <= t.0 < cols && 0 <= t.1 < rows
    && Abs(t.0 - x) <= 2 && Abs(t.1 - y) <= 2
    && t != (x, y)
  }

  /** Positions listed column offset first, then row offset, both ascending. */
  predicate Ascending(ts: seq<(int, int)>) {
    forall i, j :: 0 <= i < j < |ts| ==> ts[i].0 < ts[j].0 || (ts[i].0 == ts[j].0 && ts[i].1 < ts[j].1)
  }

  /** The box positions of column offset `dx`, row offsets from `dy` to 2. */
  function BoxColumn(cols: int, rows: int, x: int, y: int, dx: int, dy: int): seq<(int, int)>
    requires -2 <= dx <= 2 && -2 <= dy <= 3
    decreases 3 - dy
  {
    if dy == 3 then []
    else
      var rest := BoxColumn(cols, rows, x, y, dx, dy + 1);
      if (dx == 0 && dy == 0) || !(0 <= x + dx < cols && 0 <= y + dy < rows) then rest
      else [(x + dx, y + dy)] + rest
  }

  /** A column lists exactly its members, in ascending row order. */
  lemma {:induction false} BoxColumnFacts(cols: int, rows: int, x: int, y: int, dx: int, dy: int)
    requires -2 <= dx <= 2 && -2 <= dy <= 3
    ensures var r := BoxColumn(cols, rows, x, y, dx, dy);
      && (forall t :: t in r <==> ColumnMember(cols, rows, x, y, dx, dy, t))
      && Ascending(r) && forall k :: 0 <= k < |r| ==> r[k].0 == x + dx && y + dy <= r[k].1
    decreases 3 - dy
  {
    if dy < 3 {
      BoxColumnFacts(cols, rows, x, y, dx, dy + 1);
    }
  }

  /** `t` is an on-grid position of column `x + dx` and rows `y + dy` to
      `y + 2`, other than `(x, y)`. */
  predicate ColumnMember(cols: int, rows: int, x: int, y: int, dx: int, dy: int, t: (int, int)) {
    && t.0 == x + dx && 0 <= t.0 < cols
    && y + dy <= t.1 <= y + 2 && 0 <= t.1 < rows
    && t != (x, y)
  }

  /** How many of the offsets `lo..2` from `v` land in `[0, n)`. */
  function Span(v: int, n: int, lo: int): nat
    requires -2 <= lo <= 3
    decreases 3 - lo
  {
    if lo == 3 then 0 else (if 0 <= v + lo < n then 1 else 0) + Span(v, n, lo + 1)
  }

  /** The box positions of column offsets `dx` to 2. */
  function BoxFrom(cols: int, rows: int, x: int, y: int, dx: int): seq<(int, int)>
    requires -2 <= dx <= 3
    decreases 3 - dx
  {
    if dx == 3 then []
    else BoxColumn(cols, rows, x, y, dx, -2) + BoxFrom(cols, rows, x, y, dx + 1)
  }

  /** The columns from `dx` on list exactly the box positions there, in
      ascending order. */
  lemma {:induction false} BoxFromFacts(cols: int, rows: int, x: int, y: int, dx: int)
    requires -2 <= dx <= 3
    ensures var r := BoxFrom(cols, rows, x, y, dx);
      && (forall t :: t in r <==> InBox(cols, rows, x, y, t) && x + dx <= t.0)
      && Ascending(r) && forall k :: 0 <= k < |r| ==> x + dx <= r[k].0 <= x + 2
    decreases 3 - dx
  {
    if dx < 3 {
      BoxColumnFacts(cols, rows, x, y, dx, -2);
      BoxFromFacts(cols, rows, x, y, dx + 1);
      BoxJoin(cols, rows, x, y, dx, BoxColumn(cols, rows, x, y, dx, -2), BoxFrom(cols, rows, x, y, dx + 1));
    }
  }

  lemma BoxJoin(cols: int, rows: int, x: int, y: int, dx: int, col: seq<(int, int)>, rest: seq<(int, int)>)
    requires -2 <= dx <= 2
    requires forall t :: t in col <==> ColumnMember(cols, rows, x, y, dx, -2, t)
    requires Ascending(col) && forall k :: 0 <= k < |col| ==> col[k].0 == x + dx
    requires forall t :: t in rest <==> InBox(cols, rows, x, y, t) && x + dx + 1 <= t.0
    requires Ascending(rest) && forall k :: 0 <= k < |rest| ==> x + dx + 1 <= rest[k].0 <= x + 2
    ensures forall t :: t in col + rest <==> InBox(cols, rows, x, y, t) && x + dx <= t.0
    ensures Ascending(col + rest) && forall k :: 0 <= k < |col + rest| ==> x + dx <= (col + rest)[k].0 <= x + 2
  {
    AscendingJoin(col, rest, x + dx);
    assert forall t :: t in col ==> InBox(cols, rows, x, y, t);
    assert forall t :: InBox(cols, rows, x, y, t) && t.0 == x + dx ==> ColumnMember(cols, rows, x, y, dx, -2, t);
  }

  lemma AscendingJoin(a: seq<(int, int)>, b: seq<(int, int)>, c: int)
    requires Ascending(a) && Ascending(b)
    requires forall k :: 0 <= k < |a| ==> a[k].0 == c
    requires forall k :: 0 <= k < |b| ==> c + 1 <= b[k].0
    ensures Ascending(a + b)
  {
  }

  /** The centre column always lies on the grid. */
  lemma SpanCenter(x: int, cols: int, dx: int)
    requires 0 <= x < cols && -2 <= dx <= 2
    decreases -dx
    ensures Span(x, cols, dx) == (if 0 <= x + dx < cols then 1 else 0) + Span(x, cols, dx + 1)
    ensures dx <= 0 ==> Span(x, cols, dx) >= 1
  {
    if dx < 0 {
      SpanCenter(x, cols, dx + 1);
    }
  }

  /** A column of the box holds every row offset that lands on the grid,
      less the centre in the centre column. */
  lemma {:induction false} BoxColumnCount(cols: int, rows: int, x: int, y: int, dx: int, dy: int)
    requires -2 <= dx <= 2 && -2 <= dy <= 3 && 0 <= y < rows
    ensures |BoxColumn(cols, rows, x, y, dx, dy)|
      == if 0 <= x + dx < cols then Span(y, rows, dy) - (if dx == 0 && dy <= 0 then 1 else 0) else 0
    decreases 3 - dy
  {
    if dy < 3 {
      BoxColumnCount(cols, rows, x, y, dx, dy + 1);
    }
  }

  /** `a` copies of `b` added up: a product the solver can unfold one factor
      at a time. */
  function Times(a: nat, b: nat): nat {
    if a == 0 then 0 else b + Times(a - 1, b)
  }

  /** The box holds every on-grid column offset times every on-grid row
      offset, less the centre. */
  lemma {:induction false} BoxFromCount(cols: int, rows: int, x: int, y: int, dx: int)
    requires -2 <= dx <= 3 && 0 <= x < cols && 0 <= y < rows
    ensures |BoxFrom(cols, rows, x, y, dx)| == Times(Span(x, cols, dx), Span(y, rows, -2)) - (if dx <= 0 then 1 else 0)
    decreases 3 - dx
  {
    if dx < 3 {
      var col := BoxColumn(cols, rows, x, y, dx, -2);
      var rest := BoxFrom(cols, rows, x, y, dx + 1);
      assert |BoxFrom(cols, rows, x, y, dx)| == |col| + |rest|;
      BoxColumnCount(cols, rows, x, y, dx, -2);
      BoxFromCount(cols, rows, x, y, dx + 1);
      SpanCenter(x, cols, dx);
      SpanCenter(y, rows, -2);
      BoxCountStep(0 <= x + dx < cols, dx, Span(x, cols, dx), Span(x, cols, dx + 1), Span(y, rows, -2), |col|, |rest|);
    }
  }

  /** The arithmetic of one column of the box count. */
  lemma BoxCountStep(inside: bool, dx: int, here: nat, next: nat, sy: nat, colLen: nat, restLen: nat)
    requires here == (if inside then 1 else 0) + next && sy >= 1
    requires dx == 0 ==> inside
    requires dx < 0 ==> next >= 1
    requires colLen == if inside then sy - (if dx == 0 then 1 else 0) else 0
    requires restLen + (if dx + 1 <= 0 then 1 else 0) == Times(next, sy)
    ensures colLen + restLen + (if dx <= 0 then 1 else 0) == Times(here, sy)
  {
    if inside {
      assert Times(here, sy) == sy + Times(next, sy);
    }
  }

  /** The list `createPathwaysAroundCell` builds before shuffling it. */
  function BoxTargets(cols: int, rows: int, x: int, y: int): (r: seq<(int, int)>)
    ensures forall t :: t in r <==> InBox(cols, rows, x, y, t)
    ensures Ascending(r) && forall i, j :: 0 <= i < j < |r| ==> r[i] != r[j]
  {
    BoxFromFacts(cols, rows, x, y, -2);
    BoxFrom(cols, rows, x, y, -2)
  }

  /** On a grid at least 3 by 3 the box always holds at least eight positions. */
  lemma BoxAtLeastEight(cols: int, rows: int, x: int, y: int)
    requires cols >= 3 && rows >= 3 && 0 <= x < cols && 0 <= y < rows
    ensures |BoxFrom(cols, rows, x, y, -2)| >= 8
  {
    BoxFromCount(cols, rows, x, y, -2);
    SpanAtLeastThree(x, cols);
    SpanAtLeastThree(y, rows);
    var sx := Span(x, cols, -2);
    var sy := Span(y, rows, -2);
    TimesAtLeast(sx, sy);
  }

  lemma TimesAtLeast(a: nat, b: nat)
    requires a >= 3
    ensures Times(a, b) >= b + b + b
  {
    assert Times(a, b) == b + Times(a - 1, b);
    assert Times(a - 1, b) == b + Times(a - 2, b);
    assert Times(a - 2, b) == b + Times(a - 3, b);
  }

  lemma SpanAtLeastThree(v: int, n: int)
    requires n >= 3 && 0 <= v < n
    ensures Span(v, n, -2) >= 3
  {
    assert Span(v, n, 2) == (if v + 2 < n then 1 else 0);
    assert Span(v, n, 1) == (if v + 1 < n then 1 else 0) + Span(v, n, 2);
    assert Span(v, n, 0) == 1 + Span(v, n, 1);
    assert Span(v, n, -1) == (if 0 <= v - 1 then 1 else 0) + Span(v, n, 0);
  }

  function Sign(v: int): int {
    if v > 0 then 1 else if v < 0 then -1 else 0
  }

  /** The edge cut between two positions, when both lie on the grid. */
  function Opening(g: Grid, x: int, y: int, x': int, y': int, w: Dir): (r: seq<Edge>)
    requires Wf(g)
  {
    var a := IndexXY(x, y, g.cols, g.rows);
    var b := IndexXY(x', y', g.cols, g.rows);
    if a >= 0 && b >= 0 then [Edge(a, b, w)] else []
  }

  /** `v` lies between `a` and `b` inclusive, whichever is larger. */
  predicate Between(v: int, a: int, b: int) {
    (a <= v <= b) || (b <= v <= a)
  }

  /** Cell `i` lies in the rectangle spanned by `(x, y)` and `(x', y')`. */
  ghost predicate InRect(g: Grid, i: int, x: int, y: int, x': int, y': int)
    requires Wf(g)
  {
    0 <= i < |g.cells| && Between(Col(i, g.cols), x, x') && Between(Row(i, g.cols), y, y')
  }

  ghost predicate RectEdges(g: Grid, es: seq<Edge>, x: int, y: int, x': int, y': int)
    requires Wf(g)
  {
    forall k :: 0 <= k < |es| ==> InRect(g, es[k].a, x, y, x', y') && InRect(g, es[k].b, x, y, x', y')
  }

  /** Where one round of the corridor walk moves `(cx, cy)` on its way to
      `(nx, ny)`: one column closer, and one row closer only once the column
      is reached. */
  function NextPos(cx: int, cy: int, nx: int, ny: int): (int, int) {
    var cx' := cx + Sign(nx - cx);
    (cx', if Sign(ny - cy) != 0 && cx' == nx then cy + Sign(ny - cy) else cy)
  }

  /** The edges one round of the corridor walk cuts: the column step's, then
      the row step's. */
  function RoundEdges(g: Grid, cx: int, cy: int, nx: int, ny: int): seq<Edge>
    requires Wf(g)
  {
    ColumnStep(g, cx, cy, nx, ny) + RowStep(g, cx, cy, nx, ny)
  }

  /** The edge a round's column step cuts, if the column is not yet reached. */
  function ColumnStep(g: Grid, cx: int, cy: int, nx: int, ny: int): seq<Edge>
    requires Wf(g)
  {
    var sx := Sign(nx - cx);
    if sx != 0 then Opening(g, cx, cy, cx + sx, cy, if sx > 0 then East else West) else []
  }

  /** The edge a round's row step cuts: only once the column step has reached
      the target column. */
  function RowStep(g: Grid, cx: int, cy: int, nx: int, ny: int): seq<Edge>
    requires Wf(g)
  {
    var cx' := cx + Sign(nx - cx);
    var sy := Sign(ny - cy);
    if sy != 0 && cx' == nx then Opening(g, cx', cy, cx', cy + sy, if sy > 0 then South else North) else []
  }

  /** A round cuts real edges of the grid, inside the corridor's rectangle. */
  lemma RoundFacts(g: Grid, cx: int, cy: int, nx: int, ny: int)
    requires Wf(g)
    ensures var r := RoundEdges(g, cx, cy, nx, ny);
      GridEdges(g, r) && InBounds(g, r) && RectEdges(g, r, cx, cy, nx, ny)
  {
    ColumnFacts(g, cx, cy, nx, ny);
    RowFacts(g, cx, cy, nx, ny);
    JoinRound(g, ColumnStep(g, cx, cy, nx, ny), RowStep(g, cx, cy, nx, ny), cx, cy, cx, cy, nx, ny);
  }

  lemma ColumnFacts(g: Grid, cx: int, cy: int, nx: int, ny: int)
    requires Wf(g)
    ensures var a := ColumnStep(g, cx, cy, nx, ny);
      GridEdges(g, a) && InBounds(g, a) && RectEdges(g, a, cx, cy, nx, ny)
  {
    XStep(g, cx, cy, Sign(nx - cx));
  }

  lemma RowFacts(g: Grid, cx: int, cy: int, nx: int, ny: int)
    requires Wf(g)
    ensures var b := RowStep(g, cx, cy, nx, ny);
      GridEdges(g, b) && InBounds(g, b) && RectEdges(g, b, cx, cy, nx, ny)
  {
    YStep(g, cx + Sign(nx - cx), cy, Sign(ny - cy));
  }

  /** The corridor `createPathwaysAroundCell` cuts from `(cx, cy)` to
      `(nx, ny)`, round after round until the target is reached. */
  function WalkEdges(g: Grid, cx: int, cy: int, nx: int, ny: int): (r: seq<Edge>)
    requires Wf(g)
    ensures GridEdges(g, r) && InBounds(g, r) && RectEdges(g, r, cx, cy, nx, ny)
    decreases Abs(nx - cx) + Abs(ny - cy)
  {
    if cx == nx && cy == ny then []
    else
      var p := NextPos(cx, cy, nx, ny);
      var rest := WalkEdges(g, p.0, p.1, nx, ny);
      RoundFacts(g, cx, cy, nx, ny);
      JoinRound(g, RoundEdges(g, cx, cy, nx, ny), rest, cx, cy, p.0, p.1, nx, ny);
      RoundEdges(g, cx, cy, nx, ny) + rest
  }

  /** A round's edges followed by the rest of the corridor stay in the
      rectangle of the whole corridor. */
  lemma JoinRound(g: Grid, a: seq<Edge>, b: seq<Edge>, cx: int, cy: int, px: int, py: int, nx: int, ny: int)
    requires Wf(g) && GridEdges(g, a) && GridEdges(g, b) && InBounds(g, a) && InBounds(g, b)
    requires RectEdges(g, a, cx, cy, nx, ny) && RectEdges(g, b, px, py, nx, ny)
    requires Between(px, cx, nx) && Between(py, cy, ny)
    ensures GridEdges(g, a + b) && InBounds(g, a + b) && RectEdges(g, a + b, cx, cy, nx, ny)
  {
    forall k | 0 <= k < |b| ensures InRect(g, b[k].a, cx, cy, nx, ny) && InRect(g, b[k].b, cx, cy, nx, ny) {
      assert InRect(g, b[k].a, px, py, nx, ny) && InRect(g, b[k].b, px, py, nx, ny);
    }
  }

  /** A column step cuts a real edge of the grid when both of its ends lie
      on the grid, and nothing otherwise. */
  lemma XStep(g: Grid, cx: int, cy: int, sx: int)
    requires Wf(g) && -1 <= sx <= 1
    ensures sx != 0 ==> var ex := Opening(g, cx, cy, cx + sx, cy, if sx > 0 then East else West);
      |ex| <= 1 && (|ex| == 1 <==> 0 <= cx < g.cols && 0 <= cy < g.rows && 0 <= cx + sx < g.cols)
      && (|ex| == 1 ==>
            && GridEdge(g, ex[0])
            && Col(ex[0].a, g.cols) == cx && Row(ex[0].a, g.cols) == cy
            && Col(ex[0].b, g.cols) == cx + sx && Row(ex[0].b, g.cols) == cy)
  {
    if sx != 0 && 0 <= cx < g.cols && 0 <= cy < g.rows && 0 <= cx + sx < g.cols {
      NeighborOfPosition(g, cx, cy, if sx > 0 then East else West);
      NeighborOfPosition(g, cx + sx, cy, North);
    }
  }

  /** A row step cuts a real edge of the grid when both of its ends lie on
      the grid, and nothing otherwise. */
  lemma YStep(g: Grid, cx: int, cy: int, sy: int)
    requires Wf(g) && -1 <= sy <= 1
    ensures sy != 0 ==> var ey := Opening(g, cx, cy, cx, cy + sy, if sy > 0 then South else North);
      |ey| <= 1 && (|ey| == 1 <==> 0 <= cx < g.cols && 0 <= cy < g.rows && 0 <= cy + sy < g.rows)
      && (|ey| == 1 ==>
            && GridEdge(g, ey[0])
            && Col(ey[0].a, g.cols) == cx && Row(ey[0].a, g.cols) == cy
            && Col(ey[0].b, g.cols) == cx && Row(ey[0].b, g.cols) == cy + sy)
  {
    if sy != 0 && 0 <= cx < g.cols && 0 <= cy < g.rows && 0 <= cy + sy < g.rows {
      NeighborOfPosition(g, cx, cy, if sy > 0 then South else North);
      NeighborOfPosition(g, cx, cy + sy, North);
    }
  }

  lemma SuffixIn<T>(a: seq<T>, b: seq<T>)
    ensures forall k :: 0 <= k < |b| ==> b[k] in a + b
  {
    forall k | 0 <= k < |b| ensures b[k] in a + b {
      assert (a + b)[|a| + k] == b[k];
    }
  }

  /** The corridor joins its two ends: once its edges are opened, a solver can
      walk from `(cx, cy)` to `(nx, ny)` on a grid without obstacles. */
  lemma {:induction false} WalkConnects(g: Grid, cx: int, cy: int, nx: int, ny: int)
    requires Wf(g) && 0 <= cx < g.cols && 0 <= cy < g.rows && 0 <= nx < g.cols && 0 <= ny < g.rows
    requires forall i :: 0 <= i < |g.cells| ==> !g.cells[i].blocked
    ensures Reachable(OpenAll(g, WalkEdges(g, cx, cy, nx, ny)), IndexXY(cx, cy, g.cols, g.rows), IndexXY(nx, ny, g.cols, g.rows))
    decreases Abs(nx - cx) + Abs(ny - cy)
  {
    var t := IndexXY(nx, ny, g.cols, g.rows);
    if cx == nx && cy == ny {
      ReachableRefl(g, t);
    } else {
      var p := NextPos(cx, cy, nx, ny);
      var rest := WalkEdges(g, p.0, p.1, nx, ny);
      assert WalkEdges(g, cx, cy, nx, ny) == RoundEdges(g, cx, cy, nx, ny) + rest;
      WalkConnects(g, p.0, p.1, nx, ny);
      RoundFacts(g, cx, cy, nx, ny);
      WalkStep(g, cx, cy, nx, ny, rest, t);
    }
  }

  /** One round in front of a corridor that already connects the round's end
      to `t` connects the round's start to `t`. */
  lemma WalkStep(g: Grid, cx: int, cy: int, nx: int, ny: int, rest: seq<Edge>, t: int)
    requires Wf(g) && 0 <= cx < g.cols && 0 <= cy < g.rows && 0 <= nx < g.cols && 0 <= ny < g.rows
    requires forall i :: 0 <= i < |g.cells| ==> !g.cells[i].blocked
    requires GridEdges(g, RoundEdges(g, cx, cy, nx, ny)) && InBounds(g, RoundEdges(g, cx, cy, nx, ny))
    requires GridEdges(g, rest) && InBounds(g, rest)
    requires Reachable(OpenAll(g, rest), IndexXY(NextPos(cx, cy, nx, ny).0, NextPos(cx, cy, nx, ny).1, g.cols, g.rows), t)
    ensures InBounds(g, RoundEdges(g, cx, cy, nx, ny) + rest)
    ensures Reachable(OpenAll(g, RoundEdges(g, cx, cy, nx, ny) + rest), IndexXY(cx, cy, g.cols, g.rows), t)
  {
    var r := RoundEdges(g, cx, cy, nx, ny);
    var es := r + rest;
    EdgesJoin(g, r, rest);
    SuffixIn(r, rest);
    OpenAllSuper(g, es, rest);
    OpensOnlyReachable(OpenAll(g, rest), OpenAll(g, es), IndexXY(NextPos(cx, cy, nx, ny).0, NextPos(cx, cy, nx, ny).1, g.cols, g.rows), t);
    assert es[..|r|] == r;
    RoundConnects(g, cx, cy, nx, ny, es, t);
  }

  lemma EdgesJoin(g: Grid, a: seq<Edge>, b: seq<Edge>)
    requires Wf(g) && GridEdges(g, a) && GridEdges(g, b) && InBounds(g, a) && InBounds(g, b)
    ensures GridEdges(g, a + b) && InBounds(g, a + b)
  {
  }

  /** Opening a list that starts with a round's edges lets a solver walk the
      round: whatever the round's end reaches, its start reaches. */
  lemma RoundConnects(g: Grid, cx: int, cy: int, nx: int, ny: int, es: seq<Edge>, t: int)
    requires Wf(g) && 0 <= cx < g.cols && 0 <= cy < g.rows && 0 <= nx < g.cols && 0 <= ny < g.rows
    requires forall i :: 0 <= i < |g.cells| ==> !g.cells[i].blocked
    requires GridEdges(g, es) && InBounds(g, es)
    requires |RoundEdges(g, cx, cy, nx, ny)| <= |es| && es[..|RoundEdges(g, cx, cy, nx, ny)|] == RoundEdges(g, cx, cy, nx, ny)
    requires Reachable(OpenAll(g, es), IndexXY(NextPos(cx, cy, nx, ny).0, NextPos(cx, cy, nx, ny).1, g.cols, g.rows), t)
    ensures Reachable(OpenAll(g, es), IndexXY(cx, cy, g.cols, g.rows), t)
  {
    var h := OpenAll(g, es);
    var sx := Sign(nx - cx);
    var p := NextPos(cx, cy, nx, ny);
    var a := ColumnStep(g, cx, cy, nx, ny);
    var b := RowStep(g, cx, cy, nx, ny);
    assert RoundEdges(g, cx, cy, nx, ny) == a + b;
    PrefixParts(es, a, b);
    var c := IndexXY(cx, cy, g.cols, g.rows);
    var m := IndexXY(cx + sx, cy, g.cols, g.rows);
    var q := IndexXY(p.0, p.1, g.cols, g.rows);
    RowShape(g, cx, cy, nx, ny);
    if p.1 != cy {
      assert es[|a|] == b[0];
      EdgeReach(g, es, |a|, t);
    }
    assert Reachable(h, m, t);
    ColumnShape(g, cx, cy, nx, ny);
    if sx != 0 {
      assert es[0] == a[0];
      EdgeReach(g, es, 0, t);
    }
  }

  lemma PrefixParts<T>(es: seq<T>, a: seq<T>, b: seq<T>)
    requires |a + b| <= |es| && es[..|a + b|] == a + b
    ensures forall k :: 0 <= k < |a| ==> es[k] == a[k]
    ensures forall k :: 0 <= k < |b| ==> es[|a| + k] == b[k]
  {
    forall k | 0 <= k < |b| ensures es[|a| + k] == b[k] {
      assert es[..|a + b|][|a| + k] == b[k];
    }
  }

  /** What a round's column step cuts, in cell addresses. */
  lemma ColumnShape(g: Grid, cx: int, cy: int, nx: int, ny: int)
    requires Wf(g) && 0 <= cx < g.cols && 0 <= cy < g.rows && 0 <= nx < g.cols && 0 <= ny < g.rows
    ensures var sx := Sign(nx - cx);
      ColumnStep(g, cx, cy, nx, ny)
      == if sx != 0 then [Edge(IndexXY(cx, cy, g.cols, g.rows), IndexXY(cx + sx, cy, g.cols, g.rows), if sx > 0 then East else West)] else []
  {
  }

  /** What a round's row step cuts, in cell addresses. */
  lemma RowShape(g: Grid, cx: int, cy: int, nx: int, ny: int)
    requires Wf(g) && 0 <= cx < g.cols && 0 <= cy < g.rows && 0 <= nx < g.cols && 0 <= ny < g.rows
    ensures var p := NextPos(cx, cy, nx, ny);
      var m := IndexXY(p.0, cy, g.cols, g.rows);
      RowStep(g, cx, cy, nx, ny)
      == if p.1 != cy then [Edge(m, IndexXY(p.0, p.1, g.cols, g.rows), if p.1 > cy then South else North)] else []
  {
  }

  /** An opened edge is a move: what its far end reaches, its near end reaches. */
  lemma EdgeReach(g: Grid, es: seq<Edge>, k: int, t: int)
    requires Wf(g) && GridEdges(g, es) && 0 <= k < |es|
    requires forall i :: 0 <= i < |g.cells| ==> !g.cells[i].blocked
    requires InBounds(g, es) && Reachable(OpenAll(g, es), es[k].b, t)
    ensures Reachable(OpenAll(g, es), es[k].a, t)
  {
    TreeEdgeStep(g, es, k);
    ReachPrepend(OpenAll(g, es), es[k].a, es[k].b, t);
  }

  /** Cell `i` lies within two columns and two rows of `(x, y)`. */
  ghost predicate Near(g: Grid, i: int, x: int, y: int)
    requires Wf(g)
  {
    0 <= i < |g.cells| && Abs(Col(i, g.cols) - x) <= 2 && Abs(Row(i, g.cols) - y) <= 2
  }

  ghost predicate NearEdges(g: Grid, es: seq<Edge>, x: int, y: int)
    requires Wf(g)
  {
    forall k :: 0 <= k < |es| ==> Near(g, es[k].a, x, y) && Near(g, es[k].b, x, y)
  }

  /** The corridors from `(x, y)` to each target in turn. */
  function Walks(g: Grid, x: int, y: int, ts: seq<(int, int)>): (r: seq<Edge>)
    requires Wf(g)
    requires forall k :: 0 <= k < |ts| ==> InBox(g.cols, g.rows, x, y, ts[k])
    ensures GridEdges(g, r) && InBounds(g, r) && NearEdges(g, r, x, y)
  {
    if ts == [] then []
    else
      assert InBox(g.cols, g.rows, x, y, ts[0]);
      var w := WalkEdges(g, x, y, ts[0].0, ts[0].1);
      var rest := Walks(g, x, y, ts[1..]);
      RectNear(g, w, x, y, ts[0]);
      JoinNear(g, w, rest, x, y);
      w + rest
  }

  /** A corridor toward a box position stays near the box's centre. */
  lemma RectNear(g: Grid, es: seq<Edge>, x: int, y: int, t: (int, int))
    requires Wf(g) && InBox(g.cols, g.rows, x, y, t) && RectEdges(g, es, x, y, t.0, t.1)
    ensures NearEdges(g, es, x, y)
  {
    forall k | 0 <= k < |es| ensures Near(g, es[k].a, x, y) && Near(g, es[k].b, x, y) {
      assert InRect(g, es[k].a, x, y, t.0, t.1) && InRect(g, es[k].b, x, y, t.0, t.1);
    }
  }

  lemma JoinNear(g: Grid, a: seq<Edge>, b: seq<Edge>, x: int, y: int)
    requires Wf(g) && GridEdges(g, a) && GridEdges(g, b) && InBounds(g, a) && InBounds(g, b)
    requires NearEdges(g, a, x, y) && NearEdges(g, b, x, y)
    ensures GridEdges(g, a + b) && InBounds(g, a + b) && NearEdges(g, a + b, x, y)
  {
  }

  /** Every corridor's edges are among the edges of all the corridors. */
  lemma {:induction false} WalksContain(g: Grid, x: int, y: int, ts: seq<(int, int)>, j: int)
    requires Wf(g)
    requires forall k :: 0 <= k < |ts| ==> InBox(g.cols, g.rows, x, y, ts[k])
    requires 0 <= j < |ts| && InBox(g.cols, g.rows, x, y, ts[j])
    ensures forall e :: e in WalkEdges(g, x, y, ts[j].0, ts[j].1) ==> e in Walks(g, x, y, ts)
  {
    assert InBox(g.cols, g.rows, x, y, ts[0]);
    var w := WalkEdges(g, x, y, ts[0].0, ts[0].1);
    var rest := Walks(g, x, y, ts[1..]);
    assert Walks(g, x, y, ts) == w + rest;
    if j > 0 {
      WalksContain(g, x, y, ts[1..], j - 1);
      assert ts[1..][j - 1] == ts[j];
    }
  }

  /** The box positions a cell's corridors run to: the box shuffled, and the
      first seven of it, or all of it when it is smaller. */
  function Targets(g: Grid, c: nat, draws: seq<nat>): (r: seq<(int, int)>)
    requires Wf(g)
    ensures |r| == Min(MinPathways, |BoxTargets(g.cols, g.rows, Col(c, g.cols), Row(c, g.cols))|)
    ensures forall k :: 0 <= k < |r| ==> InBox(g.cols, g.rows, Col(c, g.cols), Row(c, g.cols), r[k])
    ensures forall j, k :: 0 <= j < k < |r| ==> r[j] != r[k]
  {
    var box := BoxTargets(g.cols, g.rows, Col(c, g.cols), Row(c, g.cols));
    var n := Min(MinPathways, |box|);
    ShuffleKeeps(box, draws, n);
    Shuffle(box, draws)[..n]
  }

  /** `createPathwaysAroundCell`: the corridors cut from cell `c`. */
  function PathwaysAround(g: Grid, c: nat, draws: seq<nat>): (r: seq<Edge>)
    requires Wf(g)
    ensures GridEdges(g, r) && InBounds(g, r) && NearEdges(g, r, Col(c, g.cols), Row(c, g.cols))
  {
    var ts := Targets(g, c, draws);
    Walks(g, Col(c, g.cols), Row(c, g.cols), ts)
  }

  /** `ensureMultiplePathways`: corridors around the start cell, then around
      the end cell. Returns the grid and the edges it opened; every edge lies
      near one of the two cells. */
  function EnsureMultiplePathways(g: Grid, start: nat, end: nat, startDraws: seq<nat>, endDraws: seq<nat>)
    : (r: (Grid, seq<Edge>))
    requires Wf(g)
    ensures GridEdges(g, r.1) && InBounds(g, r.1) && r.0 == OpenAll(g, r.1)
    ensures forall k :: 0 <= k < |r.1| ==> NearEither(g, r.1[k], start, end)
  {
    var a := PathwaysAround(g, start, startDraws);
    var b := PathwaysAround(g, end, endDraws);
    JoinEither(g, a, b, Col(start, g.cols), Row(start, g.cols), Col(end, g.cols), Row(end, g.cols));
    (OpenAll(g, a + b), a + b)
  }

  lemma JoinEither(g: Grid, a: seq<Edge>, b: seq<Edge>, x: int, y: int, x': int, y': int)
    requires Wf(g) && GridEdges(g, a) && GridEdges(g, b) && InBounds(g, a) && InBounds(g, b)
    requires NearEdges(g, a, x, y) && NearEdges(g, b, x', y')
    ensures GridEdges(g, a + b) && InBounds(g, a + b)
    ensures forall k :: 0 <= k < |a + b| ==> NearPoints(g, (a + b)[k], x, y, x', y')
  {
  }

  /** Both ends of `e` lie near `(x, y)`, or both lie near `(x', y')`. */
  ghost predicate NearPoints(g: Grid, e: Edge, x: int, y: int, x': int, y': int)
    requires Wf(g)
  {
    || (Near(g, e.a, x, y) && Near(g, e.b, x, y))
    || (Near(g, e.a, x', y') && Near(g, e.b, x', y'))
  }

  /** Both ends of `e` lie within two columns and rows of cell `a`, or both
      within two columns and rows of cell `b`. */
  ghost predicate NearEither(g: Grid, e: Edge, a: nat, b: nat)
    requires Wf(g)
  {
    NearPoints(g, e, Col(a, g.cols), Row(a, g.cols), Col(b, g.cols), Row(b, g.cols))
  }

  /** On a grid at least 3 by 3 every cell gets exactly seven corridors, to
      seven different positions. */
  lemma SevenPathways(g: Grid, c: nat, draws: seq<nat>)
    requires Wf(g) && g.cols >= 3 && g.rows >= 3 && 0 <= c < |g.cells|
    ensures |Targets(g, c, draws)| == MinPathways
  {
    DecodeEncode(c, g.cols, g.rows);
    BoxAtLeastEight(g.cols, g.rows, Col(c, g.cols), Row(c, g.cols));
  }

  /** Once a list holding all of cell `c`'s corridors is opened, a solver can
      walk from `c` to each of its targets on a grid without obstacles. */
  lemma CorridorReaches(g: Grid, c: nat, draws: seq<nat>, es: seq<Edge>, j: int)
    requires Wf(g) && 0 <= c < |g.cells| && GridEdges(g, es) && InBounds(g, es)
    requires forall i :: 0 <= i < |g.cells| ==> !g.cells[i].blocked
    requires forall e :: e in PathwaysAround(g, c, draws) ==> e in es
    requires 0 <= j < |Targets(g, c, draws)|
    ensures Reachable(OpenAll(g, es), c, IndexXY(Targets(g, c, draws)[j].0, Targets(g, c, draws)[j].1, g.cols, g.rows))
  {
    var x := Col(c, g.cols);
    var y := Row(c, g.cols);
    var ts := Targets(g, c, draws);
    var t := ts[j];
    DecodeEncode(c, g.cols, g.rows);
    assert InBox(g.cols, g.rows, x, y, t);
    var w := WalkEdges(g, x, y, t.0, t.1);
    WalkConnects(g, x, y, t.0, t.1);
    WalksContain(g, x, y, ts, j);
    OpenAllSuper(g, es, w);
    OpensOnlyReachable(OpenAll(g, w), OpenAll(g, es), c, IndexXY(t.0, t.1, g.cols, g.rows));
  }

  /** After `ensureMultiplePathways` on a grid without obstacles, the start
      reaches each of its corridor targets and so does the end. */
  lemma PathwaysConnect(g: Grid, start: nat, end: nat, startDraws: seq<nat>, endDraws: seq<nat>)
    requires Wf(g) && 0 <= start < |g.cells| && 0 <= end < |g.cells|
    requires forall i :: 0 <= i < |g.cells| ==> !g.cells[i].blocked
    ensures var h := EnsureMultiplePathways(g, start, end, startDraws, endDraws).0;
      && (forall t :: t in Targets(g, start, startDraws) ==> Reachable(h, start, IndexXY(t.0, t.1, g.cols, g.rows)))
      && (forall t :: t in Targets(g, end, endDraws) ==> Reachable(h, end, IndexXY(t.0, t.1, g.cols, g.rows)))
  {
    var a := PathwaysAround(g, start, startDraws);
    var b := PathwaysAround(g, end, endDraws);
    var es := EnsureMultiplePathways(g, start, end, startDraws, endDraws).1;
    assert es == a + b;
    SuffixIn(a, b);
    forall t | t in Targets(g, start, startDraws)
      ensures Reachable(OpenAll(g, es), start, IndexXY(t.0, t.1, g.cols, g.rows))
    {
      var j :| 0 <= j < |Targets(g, start, startDraws)| && Targets(g, start, startDraws)[j] == t;
      CorridorReaches(g, start, startDraws, es, j);
    }
    forall t | t in Targets(g, end, endDraws)
      ensures Reachable(OpenAll(g, es), end, IndexXY(t.0, t.1, g.cols, g.rows))
    {
      var j :| 0 <= j < |Targets(g, end, endDraws)| && Targets(g, end, endDraws)[j] == t;
      assert forall e :: e in b ==> e in es;
      CorridorReaches(g, end, endDraws, es, j);
    }
  }
}
