/** The maze grid: cells stored row-major, the four directions, addressing with
    an off-grid sentinel, mirrored wall removal, and the walks a solver may take. */
module Grid {

  /** North 0, east 1, south 2, west 3: the fixed order every table in the
      program relies on. */
  type Dir = d: nat | d < 4

  const North: Dir := 0
  const East: Dir := 1
  const South: Dir := 2
  const West: Dir := 3

  function Opposite(d: Dir): Dir {
    (d + 2) % 4
  }

  lemma OppositeInvolution(d: Dir)
    ensures Opposite(d) != d && Opposite(Opposite(d)) == d
  {
  }

  /** Column and row offsets of the direction table `{dx, dy, dir}`. */
  function DX(d: Dir): int {
    if d == East then 1 else if d == West then -1 else 0
  }

  function DY(d: Dir): int {
    if d == North then -1 else if d == South then 1 else 0
  }

  /** One grid position. A fresh cell has every wall and no flag set. */
  datatype Cell = Cell(visited: bool, wallN: bool, wallE: bool, wallS: bool, wallW: bool, blocked: bool)

  const Fresh: Cell := Cell(false, true, true, true, true, false)

  function Wall(c: Cell, d: Dir): bool {
    match d
    case 0 => c.wallN
    case 1 => c.wallE
    case 2 => c.wallS
    case 3 => c.wallW
  }

  /** The cell with its wall `d` removed. */
  function ClearWall(c: Cell, d: Dir): (r: Cell)
    ensures !Wall(r, d)
    ensures forall e: Dir :: e != d ==> Wall(r, e) == Wall(c, e)
    ensures r.visited == c.visited && r.blocked == c.blocked
  {
    match d
    case 0 => c.(wallN := false)
    case 1 => c.(wallE := false)
    case 2 => c.(wallS := false)
    case 3 => c.(wallW := false)
  }

  lemma FreshCellDefaults(d: Dir)
    ensures Wall(Fresh, d) && !Fresh.visited && !Fresh.blocked
  {
  }

  /** Row-major address of column `x`, row `y` on a `cols` by `rows` grid, or
      -1 when the position lies off the grid. */
  function IndexXY(x: int, y: int, cols: int, rows: int): (r: int)
    ensures r == -1 <==> !(0 <= x < cols && 0 <= y < rows)
    ensures r != -1 ==> 0 <= r < cols * rows
  {
    if x < 0 || y < 0 || x >= cols || y >= rows then -1
    else
      RowMajorBound(x, y, cols, rows);
      x + y * cols
  }

  lemma RowMajorBound(x: int, y: int, cols: int, rows: int)
    requires 0 <= x < cols && 0 <= y < rows
    ensures 0 <= x + y * cols < cols * rows
  {
    assert y * cols <= (rows - 1) * cols by {
      MulMonotone(y, rows - 1, cols);
    }
  }

  lemma MulMonotone(a: int, b: int, c: nat)
    requires a <= b
    ensures a * c <= b * c
  {
  }

  /** Column of address `i`: `i % cols`, written as repeated subtraction of a
      row so that reasoning about neighbours stays linear. */
  function Col(i: nat, cols: nat): (x: nat)
    requires cols > 0
    ensures x < cols && x <= i
    decreases i
  {
    if i < cols then i else Col(i - cols, cols)
  }

  /** Row of address `i`: `i / cols`. */
  function Row(i: nat, cols: nat): (y: nat)
    requires cols > 0
    decreases i
  {
    if i < cols then 0 else 1 + Row(i - cols, cols)
  }

  /** Column and row are the remainder and quotient of row-major addressing. */
  lemma {:induction false} ColRow(i: nat, cols: nat)
    requires cols > 0
    ensures i == Col(i, cols) + Row(i, cols) * cols
    ensures Col(i, cols) == i % cols && Row(i, cols) == i / cols
    decreases i
  {
    if i >= cols {
      ColRow(i - cols, cols);
      assert i == Col(i, cols) + Row(i, cols) * cols;
      DivModUnique(i, cols, Row(i, cols), Col(i, cols));
    } else {
      DivModUnique(i, cols, 0, i);
    }
  }

  /** Decoding an in-range address into its column and row and encoding it
      again gives the address back. */
  lemma DecodeEncode(i: nat, cols: nat, rows: int)
    requires cols > 0 && i < cols * rows
    ensures Row(i, cols) < rows
    ensures IndexXY(Col(i, cols), Row(i, cols), cols, rows) == i
  {
    ColRow(i, cols);
    if Row(i, cols) >= rows {
      MulMonotone(rows, Row(i, cols), cols);
    }
  }

  /** Encoding an on-grid position and decoding the address gives the
      position back. */
  lemma {:induction false} EncodeDecode(x: nat, y: nat, cols: nat, rows: int)
    requires x < cols && y < rows
    ensures Col(x + y * cols, cols) == x && Row(x + y * cols, cols) == y
    decreases y
  {
    if y > 0 {
      assert x + y * cols - cols == x + (y - 1) * cols;
      EncodeDecode(x, y - 1, cols, rows);
    }
  }

  /** Euclidean division has one quotient and remainder. */
  lemma DivModUnique(i: int, c: int, q: int, r: int)
    requires c > 0 && 0 <= r < c && i == q * c + r
    ensures i / c == q && i % c == r
  {
    var q', r' := i / c, i % c;
    assert (q - q') * c == r' - r;
    if q > q' {
      MulMonotone(1, q - q', c);
    } else if q < q' {
      MulMonotone(1, q' - q, c);
    }
  }

  /** Stepping one address forward within a row moves one column right. */
  lemma {:induction false} ColSucc(i: nat, cols: nat)
    requires cols > 0 && Col(i, cols) + 1 < cols
    ensures Col(i + 1, cols) == Col(i, cols) + 1 && Row(i + 1, cols) == Row(i, cols)
    decreases i
  {
    if i >= cols {
      ColSucc(i - cols, cols);
    }
  }

  /** A grid: its dimensions and its cells, row-major. */
  datatype Grid = Grid(cols: int, rows: int, cells: seq<Cell>)

  ghost predicate Wf(g: Grid) {
    g.cols >= 1 && g.rows >= 1 && |g.cells| == g.cols * g.rows
  }

  function Size(g: Grid): nat {
    |g.cells|
  }

  /** The grid every generator starts from: all walls present. */
  function NewGrid(cols: int, rows: int): (g: Grid)
    requires cols >= 1 && rows >= 1
    ensures Wf(g)
    ensures forall i, d: Dir :: 0 <= i < |g.cells| ==> Wall(g.cells[i], d)
    ensures forall i :: 0 <= i < |g.cells| ==> !g.cells[i].visited && !g.cells[i].blocked
  {
    Grid(cols, rows, seq(cols * rows, _ => Fresh))
  }

  /** Address of the neighbour of cell `i` in direction `d`, or -1 off the
      grid. North and south move a whole row; east and west stay inside the
      row. `NeighborIsIndex` shows this is the program's `index(x+dx, y+dy)`. */
  function Neighbor(g: Grid, i: int, d: Dir): (j: int)
    requires g.cols > 0 && 0 <= i
    ensures j == -1 || 0 <= j < |g.cells|
  {
    if d == North then (if i - g.cols >= 0 && i - g.cols < |g.cells| then i - g.cols else -1)
    else if d == South then (if i + g.cols < |g.cells| then i + g.cols else -1)
    else if d == East then (if Col(i, g.cols) + 1 < g.cols && i + 1 < |g.cells| then i + 1 else -1)
    else (if Col(i, g.cols) > 0 && i - 1 < |g.cells| then i - 1 else -1)
  }

  /** Neighbours depend only on the width and the number of cells. */
  lemma NeighborSameShape(g: Grid, h: Grid, i: int, d: Dir)
    requires g.cols == h.cols && g.cols > 0 && |g.cells| == |h.cells| && 0 <= i
    ensures Neighbor(g, i, d) == Neighbor(h, i, d)
  {
  }

  /** The neighbour is the address of the cell one step along the direction
      table from `i`'s column and row, with -1 off the grid. */
  lemma NeighborIsIndex(g: Grid, i: int, d: Dir)
    requires Wf(g) && 0 <= i < |g.cells|
    ensures Neighbor(g, i, d) == IndexXY(Col(i, g.cols) + DX(d), Row(i, g.cols) + DY(d), g.cols, g.rows)
  {
    DecodeEncode(i, g.cols, g.rows);
    var x, y := Col(i, g.cols), Row(i, g.cols);
    if d == North {
      NorthIsIndex(g, i, x, y);
    } else if d == South {
      SouthIsIndex(g, i, x, y);
    } else if d == East {
      if Col(i, g.cols) + 1 < g.cols {
        RowMajorBound(Col(i, g.cols) + 1, Row(i, g.cols), g.cols, g.rows);
      }
    }
  }

  /** The same link stated from a position: the neighbour of the cell at
      `(x, y)` is the cell at `(x + dx, y + dy)`, or -1 off the grid. */
  lemma NeighborOfPosition(g: Grid, x: int, y: int, d: Dir)
    requires Wf(g) && 0 <= x < g.cols && 0 <= y < g.rows
    ensures 0 <= IndexXY(x, y, g.cols, g.rows) < |g.cells|
    ensures Col(IndexXY(x, y, g.cols, g.rows), g.cols) == x && Row(IndexXY(x, y, g.cols, g.rows), g.cols) == y
    ensures Neighbor(g, IndexXY(x, y, g.cols, g.rows), d) == IndexXY(x + DX(d), y + DY(d), g.cols, g.rows)
  {
    EncodeDecode(x, y, g.cols, g.rows);
    NeighborIsIndex(g, IndexXY(x, y, g.cols, g.rows), d);
  }

  lemma NorthIsIndex(g: Grid, i: int, x: int, y: int)
    requires Wf(g) && 0 <= i < |g.cells|
    requires 0 <= x < g.cols && 0 <= y < g.rows && i == x + y * g.cols
    ensures Neighbor(g, i, North) == IndexXY(x, y - 1, g.cols, g.rows)
  {
    RowAbove(x, y, g.cols, i);
  }

  /** Arithmetic behind moving up a row: from row 0 the address falls below
      zero; from a later row it lands on the address one row up. */
  lemma RowAbove(x: int, y: int, cols: int, i: int)
    requires 0 <= x < cols && 0 <= y && i == x + y * cols
    ensures y == 0 ==> i - cols < 0
    ensures y > 0 ==> i - cols == x + (y - 1) * cols && i - cols >= 0
  {
    if y > 0 {
      RowShift(x, y - 1, cols);
      MulMonotone(0, y - 1, cols);
    }
  }

  lemma SouthIsIndex(g: Grid, i: int, x: int, y: int)
    requires Wf(g) && 0 <= i < |g.cells|
    requires 0 <= x < g.cols && 0 <= y < g.rows && i == x + y * g.cols
    ensures Neighbor(g, i, South) == IndexXY(x, y + 1, g.cols, g.rows)
  {
    RowBelow(x, y, g.cols, g.rows, i);
  }

  /** Arithmetic behind moving down a row: from the last row the address
      passes the end; otherwise it lands on the address one row down. */
  lemma RowBelow(x: int, y: int, cols: int, rows: int, i: int)
    requires 0 <= x < cols && 0 <= y < rows && i == x + y * cols
    ensures y + 1 == rows ==> i + cols >= cols * rows
    ensures y + 1 < rows ==> i + cols == x + (y + 1) * cols && i + cols < cols * rows
  {
    RowShift(x, y, cols);
    if y + 1 < rows {
      RowMajorBound(x, y + 1, cols, rows);
    } else {
      MulMonotone(rows, y + 1, cols);
    }
  }

  /** The address one row down is one row length further on. */
  lemma RowShift(x: int, y: int, cols: int)
    ensures x + (y + 1) * cols == x + y * cols + cols
  {
  }

  /** Adjacency is symmetric: stepping back in the opposite direction returns. */
  lemma NeighborBack(g: Grid, i: int, d: Dir)
    requires Wf(g) && 0 <= i < |g.cells|
    requires Neighbor(g, i, d) != -1
    ensures Neighbor(g, Neighbor(g, i, d), Opposite(d)) == i
  {
    if d == East {
      ColSucc(i, g.cols);
    } else if d == West {
      ColPred(i, g.cols);
    }
  }

  /** Stepping one address back within a row moves one column left. */
  lemma ColPred(i: nat, cols: nat)
    requires cols > 0 && Col(i, cols) > 0
    ensures i >= 1 && Col(i - 1, cols) + 1 == Col(i, cols) && Row(i - 1, cols) == Row(i, cols)
  {
    ColBackOne(i, cols);
  }

  lemma {:induction false} ColBackOne(i: nat, cols: nat)
    requires cols > 0 && Col(i, cols) > 0
    ensures i >= 1 && Col(i - 1, cols) + 1 < cols
    ensures Col(i - 1, cols) + 1 == Col(i, cols) && Row(i - 1, cols) == Row(i, cols)
    decreases i
  {
    if i >= cols {
      ColBackOne(i - cols, cols);
      assert i - 1 >= cols;
    }
  }

  /** A cell and its neighbour are distinct. */
  lemma NeighborDistinct(g: Grid, i: int, d: Dir)
    requires Wf(g) && 0 <= i < |g.cells|
    requires Neighbor(g, i, d) != -1
    ensures Neighbor(g, i, d) != i
  {
  }

  /** Each shared wall is stored twice, and the two copies agree. */
  ghost predicate WallsSymmetric(g: Grid)
    requires Wf(g)
  {
    forall i, d: Dir :: 0 <= i < |g.cells| && Neighbor(g, i, d) != -1 ==>
      Wall(g.cells[i], d) == Wall(g.cells[Neighbor(g, i, d)], Opposite(d))
  }

  lemma NewGridSymmetric(cols: int, rows: int)
    requires cols >= 1 && rows >= 1
    ensures WallsSymmetric(NewGrid(cols, rows))
  {
  }

  /** Removes wall `w` of cell `a` and the opposite wall of cell `b`. */
  function RemoveWallsAB(g: Grid, a: int, b: int, w: Dir): (r: Grid)
    requires Wf(g) && 0 <= a < |g.cells| && 0 <= b < |g.cells|
    ensures Wf(r) && r.cols == g.cols && r.rows == g.rows
    ensures !Wall(r.cells[a], w) && !Wall(r.cells[b], Opposite(w))
    ensures forall i, d: Dir :: 0 <= i < |r.cells| && !(i == a && d == w) && !(i == b && d == Opposite(w)) ==>
      Wall(r.cells[i], d) == Wall(g.cells[i], d)
    ensures forall i :: 0 <= i < |r.cells| ==>
      r.cells[i].visited == g.cells[i].visited && r.cells[i].blocked == g.cells[i].blocked
  {
    var c1 := g.cells[a := ClearWall(g.cells[a], w)];
    g.(cells := c1[b := ClearWall(c1[b], Opposite(w))])
  }

  /** Removing a mirrored pair between neighbours keeps the walls symmetric. */
  lemma RemoveWallsKeepsSymmetry(g: Grid, a: int, w: Dir)
    requires Wf(g) && 0 <= a < |g.cells| && WallsSymmetric(g)
    requires Neighbor(g, a, w) != -1
    ensures WallsSymmetric(RemoveWallsAB(g, a, Neighbor(g, a, w), w))
  {
    var b := Neighbor(g, a, w);
    var r := RemoveWallsAB(g, a, b, w);
    NeighborBack(g, a, w);
    forall i, d: Dir | 0 <= i < |r.cells| && Neighbor(r, i, d) != -1
      ensures Wall(r.cells[i], d) == Wall(r.cells[Neighbor(r, i, d)], Opposite(d))
    {
      var j := Neighbor(r, i, d);
      NeighborBack(g, i, d);
      OppositeInvolution(d);
      if i == a && d == w {
      } else if i == b && d == Opposite(w) {
        OppositeInvolution(w);
      } else if j == a && Opposite(d) == w {
        OppositeInvolution(w);
      }
    }
  }

  /** `r` differs from `g` only by walls turned from present to absent. */
  ghost predicate OpensOnly(g: Grid, r: Grid)
    requires Wf(g) && Wf(r)
  {
    && r.cols == g.cols && r.rows == g.rows
    && forall i, d: Dir :: 0 <= i < |r.cells| ==>
         (Wall(r.cells[i], d) ==> Wall(g.cells[i], d))
         && r.cells[i].blocked == g.cells[i].blocked
         && r.cells[i].visited == g.cells[i].visited
  }

  lemma OpensOnlyTransitive(g: Grid, h: Grid, r: Grid)
    requires Wf(g) && Wf(h) && Wf(r)
    requires OpensOnly(g, h) && OpensOnly(h, r)
    ensures OpensOnly(g, r)
  {
  }

  /** Every cell's visited flag reset, nothing else touched. */
  function ClearGridVisited(g: Grid): (r: Grid)
    requires Wf(g)
    ensures Wf(r) && r.cols == g.cols && r.rows == g.rows
    ensures forall i :: 0 <= i < |r.cells| ==> r.cells[i] == g.cells[i].(visited := false)
  {
    g.(cells := seq(|g.cells|, i requires 0 <= i < |g.cells| => g.cells[i].(visited := false)))
  }

  /** Cell `i` with its visited flag set, nothing else touched. */
  function SetVisited(g: Grid, i: int): (r: Grid)
    requires Wf(g) && 0 <= i < |g.cells|
    ensures Wf(r) && r.cols == g.cols && r.rows == g.rows
    ensures r.cells[i].visited
    ensures forall j :: 0 <= j < |r.cells| && j != i ==> r.cells[j] == g.cells[j]
    ensures forall d: Dir :: Wall(r.cells[i], d) == Wall(g.cells[i], d)
    ensures r.cells[i].blocked == g.cells[i].blocked
  {
    g.(cells := g.cells[i := g.cells[i].(visited := true)])
  }

  /** Two grids of one shape with the same walls and obstacles; visited flags
      may differ. */
  ghost predicate SameWalls(g: Grid, h: Grid)
    requires Wf(g) && Wf(h)
  {
    && g.cols == h.cols && g.rows == h.rows
    && (forall i, d: Dir :: 0 <= i < |g.cells| ==> Wall(g.cells[i], d) == Wall(h.cells[i], d))
    && (forall i :: 0 <= i < |g.cells| ==> g.cells[i].blocked == h.cells[i].blocked)
  }

  /** A set of cells closed under stepping to any on-grid neighbour, and not
      empty, is the whole grid: the grid graph is connected. */
  lemma ClosedIsAll(g: Grid, vis: seq<bool>, s: int)
    requires Wf(g) && |vis| == |g.cells| && 0 <= s < |g.cells| && vis[s]
    requires forall a, d: Dir :: 0 <= a < |g.cells| && vis[a] && Neighbor(g, a, d) != -1 ==> vis[Neighbor(g, a, d)]
    ensures forall i :: 0 <= i < |g.cells| ==> vis[i]
  {
    forall a | 0 <= a < |g.cells| && Neighbor(g, a, East) != -1
      ensures vis[a] == vis[Neighbor(g, a, East)]
    {
      NeighborBack(g, a, East);
    }
    forall a | 0 <= a < |g.cells| && Neighbor(g, a, South) != -1
      ensures vis[a] == vis[Neighbor(g, a, South)]
    {
      NeighborBack(g, a, South);
    }
    ConstantOnGrid(g, vis, s);
    forall i | 0 <= i < |g.cells| ensures vis[i] {
      ConstantOnGrid(g, vis, i);
    }
  }

  /** Cell `u` may move into its neighbour in direction `d`: the neighbour is on
      the grid, `u`'s wall `d` is absent, and the neighbour is not blocked. */
  predicate CanStep(g: Grid, u: int, d: Dir)
    requires Wf(g) && 0 <= u < |g.cells|
  {
    var v := Neighbor(g, u, d);
    v != -1 && !Wall(g.cells[u], d) && !g.cells[v].blocked
  }

  /** One traversable move from `u` to `v`, in some direction. */
  predicate Step(g: Grid, u: int, v: int)
    requires Wf(g) && 0 <= u < |g.cells|
  {
    || (CanStep(g, u, North) && Neighbor(g, u, North) == v)
    || (CanStep(g, u, East) && Neighbor(g, u, East) == v)
    || (CanStep(g, u, South) && Neighbor(g, u, South) == v)
    || (CanStep(g, u, West) && Neighbor(g, u, West) == v)
  }

  lemma StepByDir(g: Grid, u: int, d: Dir)
    requires Wf(g) && 0 <= u < |g.cells| && CanStep(g, u, d)
    ensures Step(g, u, Neighbor(g, u, d))
  {
    if d == North {
    } else if d == East {
    } else if d == South {
    } else {
    }
  }

  /** A walk: a non-empty sequence of cells, each a traversable move from the one before. */
  ghost predicate IsWalk(g: Grid, p: seq<int>)
    requires Wf(g)
  {
    && |p| >= 1
    && (forall k :: 0 <= k < |p| ==> 0 <= p[k] < |g.cells|)
    && (forall k :: 0 <= k < |p| - 1 ==> Step(g, p[k], p[k + 1]))
  }

  ghost predicate WalkFromTo(g: Grid, p: seq<int>, s: int, t: int)
    requires Wf(g)
  {
    IsWalk(g, p) && p[0] == s && p[|p| - 1] == t
  }

  ghost predicate Reachable(g: Grid, s: int, t: int)
    requires Wf(g)
  {
    exists p :: WalkFromTo(g, p, s, t)
  }

  /** Every cell can be walked to from every other. */
  ghost predicate Connected(g: Grid)
    requires Wf(g)
  {
    forall i, j :: 0 <= i < |g.cells| && 0 <= j < |g.cells| ==> Reachable(g, i, j)
  }

  /** The Manhattan distance between two cells. */
  function Manhattan(g: Grid, a: nat, b: nat): nat
    requires g.cols > 0
  {
    Abs(Col(a, g.cols) - Col(b, g.cols)) + Abs(Row(a, g.cols) - Row(b, g.cols))
  }

  function Min(a: int, b: int): int {
    if a <= b then a else b
  }

  function Abs(x: int): nat {
    if x < 0 then -x else x
  }

  /** Moving to a neighbour changes the Manhattan distance to any cell by at most one. */
  lemma ManhattanStep(g: Grid, u: int, d: Dir, t: nat)
    requires Wf(g) && 0 <= u < |g.cells| && Neighbor(g, u, d) != -1
    ensures Manhattan(g, u, t) <= 1 + Manhattan(g, Neighbor(g, u, d), t)
    ensures Manhattan(g, Neighbor(g, u, d), t) <= 1 + Manhattan(g, u, t)
  {
    var v := Neighbor(g, u, d);
    var c := g.cols;
    if d == East {
      ColSucc(u, c);
    } else if d == West {
      ColPred(u, c);
    } else if d == North {
      assert Col(u, c) == Col(v, c) && Row(u, c) == Row(v, c) + 1;
    } else {
      assert Col(v, c) == Col(u, c) && Row(v, c) == Row(u, c) + 1;
    }
    assert Abs(Col(u, c) - Col(v, c)) + Abs(Row(u, c) - Row(v, c)) <= 1;
  }

  /** A labelling that agrees across every east and every south adjacency is
      constant: the grid graph is connected. */
  lemma {:induction false} ConstantOnGrid<T>(g: Grid, lab: seq<T>, i: int)
    requires Wf(g) && |lab| == |g.cells| && 0 <= i < |g.cells|
    requires forall a :: 0 <= a < |g.cells| && Neighbor(g, a, East) != -1 ==> lab[a] == lab[Neighbor(g, a, East)]
    requires forall a :: 0 <= a < |g.cells| && Neighbor(g, a, South) != -1 ==> lab[a] == lab[Neighbor(g, a, South)]
    ensures lab[i] == lab[0]
    decreases i
  {
    if i > 0 {
      if Col(i, g.cols) > 0 {
        ColPred(i, g.cols);
        assert Neighbor(g, i - 1, East) == i;
        ConstantOnGrid(g, lab, i - 1);
      } else {
        assert i >= g.cols;
        assert Neighbor(g, i - g.cols, South) == i;
        ConstantOnGrid(g, lab, i - g.cols);
      }
    }
  }

  /** Extending a walk by one traversable move. */
  lemma WalkExtend(g: Grid, p: seq<int>, s: int, u: int, v: int)
    requires Wf(g) && WalkFromTo(g, p, s, u) && 0 <= v < |g.cells| && Step(g, u, v)
    ensures WalkFromTo(g, p + [v], s, v)
  {
  }

  /** A one-cell walk reaches its own start. */
  lemma ReachableRefl(g: Grid, s: int)
    requires Wf(g) && 0 <= s < |g.cells|
    ensures Reachable(g, s, s)
  {
    assert WalkFromTo(g, [s], s, s);
  }

  /** A move into `v` followed by a walk from `v` is a walk from `u`. */
  lemma ReachPrepend(g: Grid, u: int, v: int, t: int)
    requires Wf(g) && 0 <= u < |g.cells| && Step(g, u, v) && Reachable(g, v, t)
    ensures Reachable(g, u, t)
  {
    var p :| WalkFromTo(g, p, v, t);
    var q := [u] + p;
    assert forall k :: 0 < k < |q| ==> q[k] == p[k - 1];
    assert WalkFromTo(g, q, u, t);
  }

  /** Removing walls never takes a move away. */
  lemma OpensOnlyStep(g: Grid, h: Grid, u: int, v: int)
    requires Wf(g) && Wf(h) && OpensOnly(g, h) && 0 <= u < |g.cells| && Step(g, u, v)
    ensures Step(h, u, v)
  {
    forall d: Dir | CanStep(g, u, d) ensures CanStep(h, u, d) && Neighbor(h, u, d) == Neighbor(g, u, d) {
      var w := Neighbor(g, u, d);
      assert !h.cells[w].blocked;
    }
  }

  /** Removing walls keeps every cell reachable that was reachable before. */
  lemma OpensOnlyReachable(g: Grid, h: Grid, s: int, t: int)
    requires Wf(g) && Wf(h) && OpensOnly(g, h) && Reachable(g, s, t)
    ensures Reachable(h, s, t)
  {
    var p :| WalkFromTo(g, p, s, t);
    forall k | 0 <= k < |p| - 1 ensures Step(h, p[k], p[k + 1]) {
      OpensOnlyStep(g, h, p[k], p[k + 1]);
    }
    assert WalkFromTo(h, p, s, t);
  }

  /** No cell holds an obstacle. */
  ghost predicate Unblocked(g: Grid)
    requires Wf(g)
  {
    forall i :: 0 <= i < |g.cells| ==> !g.cells[i].blocked
  }

  /** Removing walls adds no obstacle. */
  lemma OpensOnlyUnblocked(g: Grid, h: Grid)
    requires Wf(g) && Wf(h) && OpensOnly(g, h) && Unblocked(g)
    ensures Unblocked(h)
  {
    forall i | 0 <= i < |h.cells| ensures !h.cells[i].blocked {
      assert Wall(h.cells[i], North) ==> Wall(g.cells[i], North);
    }
  }

  /** Walks compose. */
  lemma ReachTrans(g: Grid, a: int, b: int, c: int)
    requires Wf(g) && Reachable(g, a, b) && Reachable(g, b, c)
    ensures Reachable(g, a, c)
  {
    var p :| WalkFromTo(g, p, a, b);
    var q :| WalkFromTo(g, q, b, c);
    var r := p + q[1..];
    forall k | 0 <= k < |r| - 1 ensures Step(g, r[k], r[k + 1]) {
      if k < |p| - 1 {
        assert r[k] == p[k] && r[k + 1] == p[k + 1];
      } else {
        assert r[k] == q[k - |p| + 1] && r[k + 1] == q[k - |p| + 2];
      }
    }
    assert WalkFromTo(g, r, a, c);
  }

  /** With symmetric walls and no obstacle every move can be undone. */
  lemma StepBack(g: Grid, u: int, v: int)
    requires Wf(g) && WallsSymmetric(g) && Unblocked(g) && 0 <= u < |g.cells| && Step(g, u, v)
    ensures 0 <= v < |g.cells| && Step(g, v, u)
  {
    var d: Dir :| CanStep(g, u, d) && Neighbor(g, u, d) == v;
    NeighborBack(g, u, d);
    StepByDir(g, v, Opposite(d));
  }

  /** With symmetric walls and no obstacle reachability is symmetric. */
  lemma ReachSymmetric(g: Grid, s: int, t: int)
    requires Wf(g) && WallsSymmetric(g) && Unblocked(g) && Reachable(g, s, t)
    ensures Reachable(g, t, s)
  {
    var p :| WalkFromTo(g, p, s, t);
    WalkBack(g, p);
  }

  /** A walk read backwards: its last cell reaches its first. */
  lemma {:induction false} WalkBack(g: Grid, p: seq<int>)
    requires Wf(g) && WallsSymmetric(g) && Unblocked(g) && IsWalk(g, p)
    ensures Reachable(g, p[|p| - 1], p[0])
  {
    var n := |p|;
    if n == 1 {
      ReachableRefl(g, p[0]);
    } else {
      var init := p[..n - 1];
      assert IsWalk(g, init);
      WalkBack(g, init);
      StepBack(g, p[n - 2], p[n - 1]);
      ReachPrepend(g, p[n - 1], p[n - 2], p[0]);
    }
  }
}
