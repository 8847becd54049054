/** Facts shared by the path solvers: the cost of a walk, edge lists as
    walks, consistent heuristics, and the "first cell outside a set" argument
    behind every completeness and optimality proof. */
module Search {
  import opened Grid

  /** A move from the first cell to the second, as the solvers record it. */
  type Edge = (int, int)

  /** Every cell costs one to enter: the modular build's `w = 1.0f`. */
  function Unit(n: nat): (w: seq<nat>)
    ensures |w| == n && forall i :: 0 <= i < n ==> w[i] == 1
  {
    seq(n, _ => 1)
  }

  /** No cell carries a heuristic estimate: Dijkstra's search. */
  function Zero(n: nat): (h: seq<nat>)
    ensures |h| == n && forall i :: 0 <= i < n ==> h[i] == 0
  {
    seq(n, _ => 0)
  }

  ghost predicate InRange(p: seq<int>, n: nat) {
    forall k :: 0 <= k < |p| ==> 0 <= p[k] < n
  }

  /** The cost of a walk: the entry costs of every cell after the first. */
  function Cost(w: seq<nat>, p: seq<int>): nat
    requires InRange(p, |w|)
  {
    if |p| <= 1 then 0 else Cost(w, p[..|p| - 1]) + w[p[|p| - 1]]
  }

  /** With unit costs a walk costs its number of moves. */
  lemma {:induction false} UnitCost(w: seq<nat>, p: seq<int>)
    requires InRange(p, |w|) && forall i :: 0 <= i < |w| ==> w[i] == 1
    ensures Cost(w, p) == if |p| == 0 then 0 else |p| - 1
  {
    if |p| > 1 {
      UnitCost(w, p[..|p| - 1]);
    }
  }

  /** A walk split at cell `i` costs the sum of its two halves. */
  lemma {:induction false} CostSplit(w: seq<nat>, p: seq<int>, i: nat)
    requires InRange(p, |w|) && i < |p|
    ensures Cost(w, p) == Cost(w, p[..i + 1]) + Cost(w, p[i..])
  {
    if i + 1 < |p| {
      var q := p[..|p| - 1];
      CostSplit(w, q, i);
      assert q[..i + 1] == p[..i + 1];
      assert q[i..] == p[i..][..|p[i..]| - 1];
    } else {
      assert p[..i + 1] == p;
      assert |p[i..]| == 1;
    }
  }

  /** A heuristic that never drops by more than the cost of the move that
      lowers it. */
  ghost predicate Consistent(g: Grid, w: seq<nat>, h: seq<nat>)
    requires Wf(g)
  {
    && |w| == |g.cells| && |h| == |g.cells|
    && forall u, d: Dir :: 0 <= u < |g.cells| && CanStep(g, u, d) ==>
         h[u] <= w[Neighbor(g, u, d)] + h[Neighbor(g, u, d)]
  }

  lemma ConsistentStep(g: Grid, w: seq<nat>, h: seq<nat>, u: int, v: int)
    requires Wf(g) && Consistent(g, w, h) && 0 <= u < |g.cells| && Step(g, u, v)
    ensures 0 <= v < |g.cells| && h[u] <= w[v] + h[v]
  {
  }

  /** Along a walk a consistent heuristic falls by at most the walk's cost. */
  lemma {:induction false} HeuristicAlong(g: Grid, w: seq<nat>, h: seq<nat>, p: seq<int>)
    requires Wf(g) && Consistent(g, w, h) && IsWalk(g, p)
    ensures h[p[0]] <= Cost(w, p) + h[p[|p| - 1]]
  {
    if |p| > 1 {
      var q := p[..|p| - 1];
      assert IsWalk(g, q);
      HeuristicAlong(g, w, h, q);
      ConsistentStep(g, w, h, p[|p| - 2], p[|p| - 1]);
    }
  }

  /** Zero is consistent. */
  lemma ZeroConsistent(g: Grid, w: seq<nat>)
    requires Wf(g) && |w| == |g.cells|
    ensures Consistent(g, w, Zero(|g.cells|))
  {
  }

  /** The Manhattan distance to a target cell, as a table over cells. */
  function ManhattanTo(g: Grid, t: nat): (h: seq<nat>)
    requires Wf(g)
    ensures |h| == |g.cells|
  {
    seq(|g.cells|, i requires 0 <= i < |g.cells| => Manhattan(g, i, t))
  }

  /** The Manhattan distance to any target is consistent when every move
      costs at least one. */
  lemma ManhattanConsistent(g: Grid, w: seq<nat>, t: nat)
    requires Wf(g) && |w| == |g.cells| && forall i :: 0 <= i < |w| ==> w[i] >= 1
    ensures Consistent(g, w, ManhattanTo(g, t))
  {
    var h := ManhattanTo(g, t);
    forall u, d: Dir | 0 <= u < |g.cells| && CanStep(g, u, d)
      ensures h[u] <= w[Neighbor(g, u, d)] + h[Neighbor(g, u, d)]
    {
      ManhattanStep(g, u, d, t);
    }
  }

  /** `n` is a lower bound on the cost of every walk from `s` to `t`. */
  ghost predicate NoCheaper(g: Grid, w: seq<nat>, s: int, t: int, n: nat)
    requires Wf(g) && |w| == |g.cells|
  {
    forall p {:trigger WalkFromTo(g, p, s, t)} :: WalkFromTo(g, p, s, t) ==> n <= Cost(w, p)
  }

  /** Some walk from `s` to `t` costs exactly `n`. */
  ghost predicate Achieved(g: Grid, w: seq<nat>, s: int, t: int, n: nat)
    requires Wf(g) && |w| == |g.cells|
  {
    exists p :: WalkFromTo(g, p, s, t) && Cost(w, p) == n
  }

  /** Extending a walk by one move adds the new cell's cost. */
  lemma AchievedStep(g: Grid, w: seq<nat>, s: int, u: int, v: int, n: nat)
    requires Wf(g) && |w| == |g.cells| && Achieved(g, w, s, u, n)
    requires 0 <= u < |g.cells| && Step(g, u, v)
    ensures 0 <= v < |g.cells| && Achieved(g, w, s, v, n + w[v])
  {
    var p :| WalkFromTo(g, p, s, u) && Cost(w, p) == n;
    WalkExtend(g, p, s, u, v);
    assert (p + [v])[..|p|] == p;
  }

  lemma AchievedStart(g: Grid, w: seq<nat>, s: int)
    requires Wf(g) && |w| == |g.cells| && 0 <= s < |g.cells|
    ensures Achieved(g, w, s, s, 0)
  {
    assert WalkFromTo(g, [s], s, s);
  }

  /** The first cell of `p` that is not in `S`, when the last one is not. */
  lemma FirstOutside(p: seq<int>, S: set<int>) returns (i: nat)
    requires |p| > 0 && p[|p| - 1] !in S
    ensures i < |p| && p[i] !in S && forall j :: 0 <= j < i ==> p[j] in S
  {
    i := 0;
    while p[i] in S
      invariant i < |p| && forall j :: 0 <= j < i ==> p[j] in S
      decreases |p| - i
    {
      i := i + 1;
    }
  }

  /** The cells `p[..i+1]` of a walk form a walk to `p[i]`. */
  lemma WalkPrefix(g: Grid, p: seq<int>, s: int, t: int, i: nat)
    requires Wf(g) && WalkFromTo(g, p, s, t) && i < |p|
    ensures WalkFromTo(g, p[..i + 1], s, p[i]) && IsWalk(g, p[i..])
  {
  }

  /** A set of cells holding `s`, not holding `t`, and closed under moves
      shows that `t` cannot be reached from `s`. */
  lemma ClosedUnreachable(g: Grid, S: set<int>, s: int, t: int)
    requires Wf(g) && s in S && t !in S
    requires forall u, d: Dir :: u in S && 0 <= u < |g.cells| && CanStep(g, u, d) ==> Neighbor(g, u, d) in S
    ensures !Reachable(g, s, t)
  {
    if p :| WalkFromTo(g, p, s, t) {
      var i := FirstOutside(p, S);
      assert i > 0;
      var d: Dir :| CanStep(g, p[i - 1], d) && Neighbor(g, p[i - 1], d) == p[i];
    }
  }

  /** A subset of `[0, n)` has at most `n` elements. */
  lemma {:induction false} CardRange(s: set<int>, n: nat)
    requires forall x :: x in s ==> 0 <= x < n
    ensures |s| <= n
  {
    if n > 0 {
      var s' := s - {n - 1};
      CardRange(s', n - 1);
    } else {
      assert forall x :: x !in s;
      assert s == {};
    }
  }

  /** The cells an edge list visits: its start, then every edge's target. */
  function PathCells(s: int, es: seq<Edge>): (p: seq<int>)
    ensures |p| == |es| + 1 && p[0] == s
  {
    [s] + seq(|es|, k requires 0 <= k < |es| => es[k].1)
  }

  /** An edge list in which each move starts where the previous one ended,
      from `s` to `t`, every move traversable. */
  ghost predicate EdgeWalk(g: Grid, es: seq<Edge>, s: int, t: int)
    requires Wf(g)
  {
    && (|es| == 0 ==> s == t)
    && (|es| > 0 ==> es[0].0 == s && es[|es| - 1].1 == t)
    && (forall k :: 0 <= k < |es| ==> 0 <= es[k].0 < |g.cells| && Step(g, es[k].0, es[k].1))
    && (forall k :: 0 <= k < |es| - 1 ==> es[k].1 == es[k + 1].0)
  }

  /** Every move in `E` is traversable: the solvers collect the moves they
      have checked here, so later facts need only membership. */
  ghost predicate Legal(g: Grid, E: set<Edge>)
    requires Wf(g)
  {
    forall e {:trigger e in E} :: e in E ==> 0 <= e.0 < |g.cells| && Step(g, e.0, e.1)
  }

  /** Checking one more move. */
  lemma LegalAdd(g: Grid, E: set<Edge>, u: int, v: int)
    requires Wf(g) && Legal(g, E) && 0 <= u < |g.cells| && Step(g, u, v)
    ensures Legal(g, E + {(u, v)})
  {
  }

  /** An edge walk visits the cells of a walk of one more cell. */
  lemma EdgeWalkCells(g: Grid, es: seq<Edge>, s: int, t: int)
    requires Wf(g) && EdgeWalk(g, es, s, t) && 0 <= s < |g.cells|
    ensures WalkFromTo(g, PathCells(s, es), s, t)
  {
    var p := PathCells(s, es);
    forall k | 0 <= k < |p| - 1 ensures Step(g, p[k], p[k + 1]) {
      if k > 0 {
        assert p[k] == es[k - 1].1 == es[k].0;
      }
    }
  }

  /** Prefixing one move to an edge walk. */
  lemma EdgeWalkCons(g: Grid, u: int, v: int, es: seq<Edge>, t: int)
    requires Wf(g) && 0 <= u < |g.cells| && Step(g, u, v) && EdgeWalk(g, es, v, t)
    ensures EdgeWalk(g, [(u, v)] + es, u, t)
  {
    var r := [(u, v)] + es;
    forall k | 0 <= k < |r| - 1 ensures r[k].1 == r[k + 1].0 {
      if k > 0 {
        assert r[k] == es[k - 1] && r[k + 1] == es[k];
      }
    }
  }
}
