/** `pickStartEnd`: the start is drawn from the four corners, the end from the
    corners other than the start, and both are unblocked. */
module Endpoints {
  import opened Grid
  import opened Choice

  /** Cell `i` with its obstacle flag set to `b`, nothing else touched. */
  function SetBlocked(g: Grid, i: int, b: bool): (r: Grid)
    requires Wf(g) && 0 <= i < |g.cells|
    ensures Wf(r) && r.cols == g.cols && r.rows == g.rows
    ensures r.cells[i].blocked == b
    ensures forall j :: 0 <= j < |r.cells| && j != i ==> r.cells[j] == g.cells[j]
    ensures forall d: Dir :: Wall(r.cells[i], d) == Wall(g.cells[i], d)
    ensures r.cells[i].visited == g.cells[i].visited
  {
    g.(cells := g.cells[i := g.cells[i].(blocked := b)])
  }

  /** Top-left, top-right, bottom-left, bottom-right. */
  function Corners(cols: int, rows: int): (r: seq<int>)
    requires cols >= 1 && rows >= 1
    ensures |r| == 4 && forall k :: 0 <= k < 4 ==> 0 <= r[k] < cols * rows
    ensures r[0] == 0 && r[3] == cols * rows - 1
  {
    var r := [IndexXY(0, 0, cols, rows), IndexXY(cols - 1, 0, cols, rows), IndexXY(0, rows - 1, cols, rows), IndexXY(cols - 1, rows - 1, cols, rows)];
    assert r[3] == cols - 1 + (rows - 1) * cols;
    r
  }

  /** The elements of `xs` other than `v`, in order. */
  function Without(xs: seq<int>, v: int): (r: seq<int>)
    ensures forall x :: x in r <==> x in xs && x != v
    ensures |r| <= |xs|
  {
    if xs == [] then []
    else if xs[0] == v then Without(xs[1..], v)
    else [xs[0]] + Without(xs[1..], v)
  }

  /** The start, the end and the grid with both unblocked. */
  datatype Ends = Ends(grid: Grid, start: int, end: int)

  /** `pickStartEnd` with draw 0 choosing the start corner and draw 1 the end
      among the remaining corners. The source needs at least two cells, or no
      corner would differ from the start. */
  function PickStartEnd(g: Grid, draws: seq<nat>): (r: Ends)
    requires Wf(g) && g.cols * g.rows >= 2
    ensures Wf(r.grid) && r.grid.cols == g.cols && r.grid.rows == g.rows
    ensures (r.start, r.end) == ChooseEnds(g.cols, g.rows, draws)
    ensures r.start in Corners(g.cols, g.rows) && r.end in Corners(g.cols, g.rows) && r.start != r.end
    ensures !r.grid.cells[r.start].blocked && !r.grid.cells[r.end].blocked
    ensures forall i :: 0 <= i < |g.cells| && i != r.start && i != r.end ==> r.grid.cells[i] == g.cells[i]
    ensures forall i, d: Dir :: 0 <= i < |g.cells| ==>
      Wall(r.grid.cells[i], d) == Wall(g.cells[i], d) && r.grid.cells[i].visited == g.cells[i].visited
  {
    var (start, end) := ChooseEnds(g.cols, g.rows, draws);
    Ends(Unblock(Unblock(g, start), end), start, end)
  }

  /** Draw 0 picks the start corner, draw 1 the end among the other corners. */
  function ChooseEnds(cols: int, rows: int, draws: seq<nat>): (r: (int, int))
    requires cols >= 1 && rows >= 1 && cols * rows >= 2
    ensures r.0 in Corners(cols, rows) && r.1 in Corners(cols, rows) && r.0 != r.1
  {
    var corners := Corners(cols, rows);
    var start := corners[Pick(draws, 0, 4)];
    var candidates := Without(corners, start);
    assert corners[0] in candidates || corners[3] in candidates;
    var end := candidates[Pick(draws, 1, |candidates|)];
    assert end in candidates;
    (start, end)
  }

  /** `if (grid[i].blocked) grid[i].blocked = false`. */
  function Unblock(g: Grid, i: int): (r: Grid)
    requires Wf(g) && 0 <= i < |g.cells|
    ensures Wf(r) && r.cols == g.cols && r.rows == g.rows && !r.cells[i].blocked
    ensures forall j :: 0 <= j < |r.cells| && j != i ==> r.cells[j] == g.cells[j]
    ensures forall d: Dir :: Wall(r.cells[i], d) == Wall(g.cells[i], d)
    ensures r.cells[i].visited == g.cells[i].visited
  {
    if g.cells[i].blocked then SetBlocked(g, i, false) else g
  }

  /** Every ordered pair of distinct corners is a possible outcome: some
      draws pick it. */
  lemma ChooseEndsCovers(cols: int, rows: int, s: int, e: int)
    requires cols >= 1 && rows >= 1 && cols * rows >= 2
    requires s in Corners(cols, rows) && e in Corners(cols, rows) && s != e
    ensures exists draws :: ChooseEnds(cols, rows, draws) == (s, e)
  {
    var corners := Corners(cols, rows);
    var i :| 0 <= i < 4 && corners[i] == s;
    var candidates := Without(corners, s);
    assert e in candidates;
    var j :| 0 <= j < |candidates| && candidates[j] == e;
    var draws := [i, j];
    assert Pick(draws, 0, 4) == i;
    assert Pick(draws, 1, |candidates|) == j;
    assert ChooseEnds(cols, rows, draws) == (s, e);
  }
}
