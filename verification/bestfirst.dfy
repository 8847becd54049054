/** `solveDijkstra` and `solveAStar`: one best-first search over entry costs
    `w` and a heuristic `h`. Dijkstra's search is `h = 0`; A* is the Manhattan
    distance to the end. The modular build uses unit costs, the legacy build
    the cells' weights when they are switched on. */
module BestFirst {
  import opened Grid
  import opened Search
  import opened Events

  /** A tentative distance: the program's `INF`, or a finite cost. */
  datatype Dist = Inf | Fin(n: nat)

  /** `du + w`, infinity absorbing. */
  function Plus(d: Dist, x: nat): (r: Dist)
    ensures r.Fin? <==> d.Fin?
    ensures r.Fin? ==> r.n == d.n + x
  {
    if d.Inf? then Inf else Fin(d.n + x)
  }

  /** The float comparison `a < b` with `INF` above every finite value. */
  predicate Below(a: Dist, b: Dist) {
    a.Fin? && (b.Inf? || a.n < b.n)
  }

  /** A queue entry: the key and the cell. */
  type Entry = (nat, int)

  /** The order of `std::greater` on pairs: the queue yields the smallest
      key, ties going to the smaller cell. */
  predicate NotAfter(a: Entry, b: Entry) {
    a.0 < b.0 || (a.0 == b.0 && a.1 <= b.1)
  }

  /** The entry `pq.top()` returns: no entry comes before it. */
  method MinIndex(pq: seq<Entry>) returns (m: nat)
    requires |pq| > 0
    ensures m < |pq| && forall i :: 0 <= i < |pq| ==> NotAfter(pq[m], pq[i])
  {
    m := 0;
    var i := 1;
    while i < |pq|
      invariant 1 <= i <= |pq| && m < i
      invariant forall j :: 0 <= j < i ==> NotAfter(pq[m], pq[j])
    {
      if !NotAfter(pq[m], pq[i]) {
        m := i;
      }
      i := i + 1;
    }
  }

  /** Entry `m` is the one `pq.top()` returns. */
  predicate IsTop(pq: seq<Entry>, m: int) {
    0 <= m < |pq| && forall i :: 0 <= i < |pq| ==> NotAfter(pq[m], pq[i])
  }

  /** Every top entry is the same entry. */
  lemma TopDetermined(pq: seq<Entry>, m: nat)
    requires m < |pq| && forall i :: 0 <= i < |pq| ==> NotAfter(pq[m], pq[i])
    ensures IsTop(pq, m) && forall k :: IsTop(pq, k) ==> pq[k] == pq[m]
  {
    forall k | IsTop(pq, k) ensures pq[k] == pq[m] {
      MinUnique(pq, m, k);
    }
  }

  /** Among distinct entries the first is unique: `pq.top()` is determined
      by the contents, whatever the heap's layout. */
  lemma MinUnique(pq: seq<Entry>, m: nat, k: nat)
    requires m < |pq| && k < |pq| && forall i :: 0 <= i < |pq| ==> NotAfter(pq[m], pq[i])
    requires forall i :: 0 <= i < |pq| ==> NotAfter(pq[k], pq[i])
    ensures pq[m] == pq[k]
  {
    assert NotAfter(pq[m], pq[k]) && NotAfter(pq[k], pq[m]);
  }

  /** `pq.pop()`: the entry at `m` leaves, the rest stay. */
  function Remove(pq: seq<Entry>, m: nat): (r: seq<Entry>)
    requires m < |pq|
    ensures |r| == |pq| - 1
    ensures forall i :: 0 <= i < |r| ==> r[i] == if i < m then pq[i] else pq[i + 1]
  {
    pq[..m] + pq[m + 1..]
  }

  /** Popping takes exactly one copy of the entry out. */
  lemma RemoveCount(pq: seq<Entry>, m: nat)
    requires m < |pq|
    ensures multiset(Remove(pq, m)) == multiset(pq) - multiset{pq[m]}
  {
    assert pq == pq[..m] + [pq[m]] + pq[m + 1..];
  }

  /** The costs and the heuristic every search is run with: every cell
      costs at least one to enter, and the heuristic is consistent. */
  ghost predicate Problem(g: Grid, w: seq<nat>, h: seq<nat>, start: int, end: int) {
    && Wf(g) && 0 <= start < |g.cells| && 0 <= end < |g.cells|
    && Consistent(g, w, h) && forall i :: 0 <= i < |w| ==> w[i] >= 1
  }

  ghost predicate Shape(g: Grid, dist: seq<Dist>, parent: seq<int>) {
    |dist| == |g.cells| && |parent| == |g.cells|
  }

  /** Every finite distance is the cost of some walk from the start. */
  ghost predicate Sound(g: Grid, w: seq<nat>, start: int, dist: seq<Dist>)
    requires Wf(g) && |w| == |g.cells| && |dist| == |g.cells|
  {
    && 0 <= start < |g.cells| && dist[start] == Fin(0)
    && forall v {:trigger Achieved(g, w, start, v, dist[v].n)} :: 0 <= v < |g.cells| && dist[v].Fin? ==> Achieved(g, w, start, v, dist[v].n)
  }

  /** The first `d` directions of `x` have been relaxed. */
  ghost predicate Relaxed(g: Grid, w: seq<nat>, dist: seq<Dist>, x: int, d: nat)
    requires Wf(g) && |w| == |g.cells| && |dist| == |g.cells| && 0 <= x < |g.cells| && dist[x].Fin?
  {
    forall e: Dir {:trigger CanStep(g, x, e)} :: e < d && CanStep(g, x, e) ==>
      dist[Neighbor(g, x, e)].Fin? && dist[Neighbor(g, x, e)].n <= dist[x].n + w[Neighbor(g, x, e)]
  }

  /** An expanded cell: at its true distance, every neighbour relaxed. */
  ghost predicate SettledAt(g: Grid, w: seq<nat>, start: int, dist: seq<Dist>, x: int)
    requires Wf(g) && |w| == |g.cells| && |dist| == |g.cells|
  {
    0 <= x < |g.cells| && dist[x].Fin? && NoCheaper(g, w, start, x, dist[x].n) && Relaxed(g, w, dist, x, 4)
  }

  ghost predicate Settled(g: Grid, w: seq<nat>, start: int, dist: seq<Dist>, done: set<int>)
    requires Wf(g) && |w| == |g.cells| && |dist| == |g.cells|
  {
    forall x {:trigger x in done} :: x in done ==> SettledAt(g, w, start, dist, x)
  }

  /** The entry a reached cell is queued under: its current score `dist + h`. */
  function Score(h: seq<nat>, dist: seq<Dist>, v: int): Entry
    requires |h| == |dist| && 0 <= v < |dist| && dist[v].Fin?
  {
    (dist[v].n + h[v], v)
  }

  /** No cell's current score is queued twice. */
  ghost predicate Single(h: seq<nat>, dist: seq<Dist>, pq: seq<Entry>)
    requires |h| == |dist|
  {
    forall v {:trigger Score(h, dist, v)} :: 0 <= v < |dist| && dist[v].Fin? ==> multiset(pq)[Score(h, dist, v)] <= 1
  }

  /** Popping keeps scores single. */
  lemma SingleRemove(h: seq<nat>, dist: seq<Dist>, pq: seq<Entry>, m: nat)
    requires |h| == |dist| && Single(h, dist, pq) && m < |pq|
    ensures Single(h, dist, Remove(pq, m))
  {
    RemoveCount(pq, m);
  }

  /** Once a cell's single current entry is popped, none is left. */
  lemma SingleGone(h: seq<nat>, dist: seq<Dist>, pq: seq<Entry>, m: nat)
    requires |h| == |dist| && Single(h, dist, pq) && m < |pq|
    requires 0 <= pq[m].1 < |dist| && dist[pq[m].1].Fin? && pq[m] == Score(h, dist, pq[m].1)
    ensures pq[m] !in Remove(pq, m)
  {
    RemoveCount(pq, m);
  }

  /** An entry keyed at or above its cell's current score, strictly above
      it for an expanded cell. */
  ghost predicate Keyed(g: Grid, h: seq<nat>, dist: seq<Dist>, done: set<int>, e: Entry)
    requires Wf(g) && |h| == |g.cells| && |dist| == |g.cells|
  {
    && 0 <= e.1 < |g.cells| && dist[e.1].Fin? && dist[e.1].n + h[e.1] <= e.0
    && (e.1 in done ==> dist[e.1].n + h[e.1] < e.0)
  }

  /** Every entry is keyed, and no cell's score is queued twice. */
  ghost predicate Heap(g: Grid, h: seq<nat>, dist: seq<Dist>, pq: seq<Entry>, done: set<int>)
    requires Wf(g) && |h| == |g.cells| && |dist| == |g.cells|
  {
    && Single(h, dist, pq)
    && forall i {:trigger pq[i]} :: 0 <= i < |pq| ==> Keyed(g, h, dist, done, pq[i])
  }

  /** Every reached, unexpanded cell not in `excused` waits in the queue
      under its current score. */
  ghost predicate Waiting(h: seq<nat>, dist: seq<Dist>, pq: seq<Entry>, done: set<int>, excused: set<int>)
    requires |h| == |dist|
  {
    forall v {:trigger dist[v]} :: 0 <= v < |dist| && dist[v].Fin? && v !in done && v !in excused ==> (dist[v].n + h[v], v) in pq
  }

  /** The link of `v` to its parent. */
  ghost predicate Link(g: Grid, w: seq<nat>, dist: seq<Dist>, parent: seq<int>, done: set<int>, E: set<Edge>, v: int)
    requires Wf(g) && |w| == |g.cells| && Shape(g, dist, parent) && 0 <= v < |g.cells|
  {
    && 0 <= parent[v] < |g.cells| && parent[v] in done && dist[v].Fin? && dist[parent[v]].Fin?
    && dist[v].n == dist[parent[v]].n + w[v] && (parent[v], v) in E
  }

  /** Parent links join expanded cells to the cells they last improved, by a
      checked move whose cost is the difference of the two distances. */
  ghost predicate Tree(g: Grid, w: seq<nat>, start: int, dist: seq<Dist>, parent: seq<int>, done: set<int>, E: set<Edge>)
    requires Wf(g) && |w| == |g.cells| && Shape(g, dist, parent) && 0 <= start < |g.cells|
  {
    && parent[start] == -1
    && (forall v {:trigger parent[v]} :: 0 <= v < |g.cells| && parent[v] != -1 ==> Link(g, w, dist, parent, done, E, v))
    && (forall v {:trigger parent[v]} :: 0 <= v < |g.cells| && dist[v].Fin? && v != start ==> parent[v] != -1)
  }

  /** Every event is an improvement along a checked move, logged with the
      cost of entering its target. */
  ghost predicate Log(g: Grid, w: seq<nat>, start: int, events: seq<Event>, E: set<Edge>)
    requires Wf(g) && |w| == |g.cells|
  {
    forall k {:trigger events[k]} :: 0 <= k < |events| ==> Logged(g, w, start, events[k], E)
  }

  /** An improvement along a checked move, not yet marked, logged with the
      cost of entering its target. */
  ghost predicate Logged(g: Grid, w: seq<nat>, start: int, e: Event, E: set<Edge>)
    requires Wf(g) && |w| == |g.cells|
  {
    (e.u, e.v) in E && !e.ok && 0 <= e.v < |g.cells| && e.cost == w[e.v] && e.v != start
  }

  ghost predicate Core(g: Grid, w: seq<nat>, start: int, dist: seq<Dist>, parent: seq<int>, events: seq<Event>,
                       done: set<int>, E: set<Edge>)
    requires Wf(g) && |w| == |g.cells|
  {
    && 0 <= start < |g.cells| && Shape(g, dist, parent) && Legal(g, E) && Sound(g, w, start, dist)
    && Tree(g, w, start, dist, parent, done, E) && Log(g, w, start, events, E)
  }

  /** The loop invariant of the search. */
  ghost predicate Inv(g: Grid, w: seq<nat>, h: seq<nat>, start: int, end: int, dist: seq<Dist>, parent: seq<int>,
                      pq: seq<Entry>, events: seq<Event>, done: set<int>, E: set<Edge>, found: bool)
  {
    && Problem(g, w, h, start, end) && end !in done
    && Core(g, w, start, dist, parent, events, done, E) && Settled(g, w, start, dist, done)
    && Heap(g, h, dist, pq, done) && Waiting(h, dist, pq, done, if found then {end} else {})
    && (found ==> dist[end].Fin? && NoCheaper(g, w, start, end, dist[end].n))
  }

  /** The first unexpanded cell of a walk from the start is reached, at no
      more than the cost of the walk up to it. */
  lemma FrontierBound(g: Grid, w: seq<nat>, start: int, dist: seq<Dist>, done: set<int>, p: seq<int>, t: int, i: nat)
    requires Wf(g) && |w| == |g.cells| && |dist| == |g.cells|
    requires Sound(g, w, start, dist) && Settled(g, w, start, dist, done)
    requires WalkFromTo(g, p, start, t) && i < |p| && forall j :: 0 <= j < i ==> p[j] in done
    ensures dist[p[i]].Fin? && dist[p[i]].n <= Cost(w, p[..i + 1])
  {
    WalkPrefix(g, p, start, t, i);
    if i > 0 {
      var x := p[i - 1];
      WalkPrefix(g, p, start, t, i - 1);
      assert NoCheaper(g, w, start, x, dist[x].n);
      assert dist[x].n <= Cost(w, p[..i]);
      var d: Dir :| CanStep(g, x, d) && Neighbor(g, x, d) == p[i];
      assert Relaxed(g, w, dist, x, 4);
      assert p[..i + 1][..i] == p[..i];
    }
  }

  /** Some entry in the queue is keyed no higher than the cost of a walk to
      `u` plus `u`'s heuristic. */
  lemma EntryBelow(g: Grid, w: seq<nat>, h: seq<nat>, start: int, end: int, dist: seq<Dist>, pq: seq<Entry>,
                   done: set<int>, p: seq<int>, u: int) returns (e: Entry)
    requires Problem(g, w, h, start, end) && |dist| == |g.cells|
    requires Sound(g, w, start, dist) && Settled(g, w, start, dist, done) && Waiting(h, dist, pq, done, {})
    requires WalkFromTo(g, p, start, u) && u !in done
    ensures e in pq && e.0 <= Cost(w, p) + h[u]
  {
    var i := FirstOutside(p, done);
    FrontierBound(g, w, start, dist, done, p, u, i);
    WalkPrefix(g, p, start, u, i);
    HeuristicAlong(g, w, h, p[i..]);
    CostSplit(w, p, i);
    e := (dist[p[i]].n + h[p[i]], p[i]);
  }

  /** A fresh entry taken from the top of the queue carries its cell's true
      distance: a cheaper walk would leave an entry with a smaller key. */
  lemma PopOptimal(g: Grid, w: seq<nat>, h: seq<nat>, start: int, end: int, dist: seq<Dist>, pq: seq<Entry>,
                   done: set<int>, m: nat)
    requires Problem(g, w, h, start, end) && |dist| == |g.cells|
    requires Sound(g, w, start, dist) && Settled(g, w, start, dist, done)
    requires Heap(g, h, dist, pq, done) && Waiting(h, dist, pq, done, {})
    requires m < |pq| && forall i :: 0 <= i < |pq| ==> NotAfter(pq[m], pq[i])
    requires dist[pq[m].1].Fin? && pq[m].0 == dist[pq[m].1].n + h[pq[m].1]
    ensures pq[m].1 !in done && NoCheaper(g, w, start, pq[m].1, dist[pq[m].1].n)
  {
    var u := pq[m].1;
    assert pq[m] in pq;
    forall p | WalkFromTo(g, p, start, u) ensures dist[u].n <= Cost(w, p) {
      var e := EntryBelow(g, w, h, start, end, dist, pq, done, p, u);
      var j :| 0 <= j < |pq| && pq[j] == e;
      assert NotAfter(pq[m], pq[j]);
    }
  }

  /** The state while `u` is being expanded, `d` directions in; `du` is its
      distance. */
  ghost predicate Expanding(g: Grid, w: seq<nat>, h: seq<nat>, start: int, end: int, u: int, du: nat, dist: seq<Dist>,
                            parent: seq<int>, pq: seq<Entry>, events: seq<Event>, done: set<int>, E: set<Edge>, d: nat)
  {
    && Wf(g) && |w| == |g.cells| && |h| == |g.cells| && 0 <= end < |g.cells| && end !in done
    && Busy(g, w, h, start, u, du, dist, parent, pq, events, done, E)
    && Relaxed(g, w, dist, u, d)
  }

  /** Everything about an expansion in progress but how far it has got. */
  ghost predicate Busy(g: Grid, w: seq<nat>, h: seq<nat>, start: int, u: int, du: nat, dist: seq<Dist>,
                       parent: seq<int>, pq: seq<Entry>, events: seq<Event>, done: set<int>, E: set<Edge>)
    requires Wf(g) && |w| == |g.cells| && |h| == |g.cells|
  {
    && Core(g, w, start, dist, parent, events, done + {u}, E) && Settled(g, w, start, dist, done)
    && 0 <= u < |g.cells| && u !in done && dist[u] == Fin(du) && NoCheaper(g, w, start, u, du)
    && Heap(g, h, dist, pq, done + {u}) && Waiting(h, dist, pq, done, {u})
  }

  /** Assembling the expansion state from its parts. */
  lemma PackExpanding(g: Grid, w: seq<nat>, h: seq<nat>, start: int, end: int, u: int, du: nat, dist: seq<Dist>,
                      parent: seq<int>, pq: seq<Entry>, events: seq<Event>, done: set<int>, E: set<Edge>, d: nat)
    requires Wf(g) && |w| == |g.cells| && |h| == |g.cells| && 0 <= end < |g.cells| && end !in done
    requires Core(g, w, start, dist, parent, events, done + {u}, E) && Settled(g, w, start, dist, done)
    requires 0 <= u < |g.cells| && u !in done && dist[u] == Fin(du) && NoCheaper(g, w, start, u, du)
    requires Heap(g, h, dist, pq, done + {u}) && Waiting(h, dist, pq, done, {u}) && Relaxed(g, w, dist, u, d)
    ensures Expanding(g, w, h, start, end, u, du, dist, parent, pq, events, done, E, d)
  {
  }

  lemma PackCore(g: Grid, w: seq<nat>, start: int, dist: seq<Dist>, parent: seq<int>, events: seq<Event>,
                 done: set<int>, E: set<Edge>)
    requires Wf(g) && |w| == |g.cells| && 0 <= start < |g.cells| && Shape(g, dist, parent) && Legal(g, E)
    requires Sound(g, w, start, dist) && Tree(g, w, start, dist, parent, done, E) && Log(g, w, start, events, E)
    ensures Core(g, w, start, dist, parent, events, done, E)
  {
  }

  /** An improvable neighbour is neither expanded nor `u` itself. */
  lemma RelaxFresh(g: Grid, w: seq<nat>, start: int, u: int, v: int, dist: seq<Dist>, done: set<int>)
    requires Wf(g) && |w| == |g.cells| && |dist| == |g.cells|
    requires Sound(g, w, start, dist) && Settled(g, w, start, dist, done)
    requires 0 <= u < |g.cells| && dist[u].Fin? && Step(g, u, v) && 0 <= v < |g.cells|
    requires Below(Plus(dist[u], w[v]), dist[v])
    ensures v !in done && v != u
  {
    AchievedStep(g, w, start, u, v, dist[u].n);
  }

  lemma RelaxSound(g: Grid, w: seq<nat>, start: int, u: int, v: int, dist: seq<Dist>)
    requires Wf(g) && |w| == |g.cells| && |dist| == |g.cells| && Sound(g, w, start, dist)
    requires 0 <= u < |g.cells| && dist[u].Fin? && Step(g, u, v) && 0 <= v < |g.cells| && v != start
    ensures Sound(g, w, start, dist[v := Fin(dist[u].n + w[v])])
  {
    AchievedStep(g, w, start, u, v, dist[u].n);
  }

  lemma RelaxSettled(g: Grid, w: seq<nat>, start: int, v: int, nv: nat, dist: seq<Dist>, done: set<int>)
    requires Wf(g) && |w| == |g.cells| && |dist| == |g.cells| && Settled(g, w, start, dist, done)
    requires 0 <= v < |g.cells| && v !in done && Below(Fin(nv), dist[v])
    ensures Settled(g, w, start, dist[v := Fin(nv)], done)
  {
    forall x | x in done ensures Relaxed(g, w, dist[v := Fin(nv)], x, 4) {
      assert Relaxed(g, w, dist, x, 4);
    }
  }

  lemma RelaxTree(g: Grid, w: seq<nat>, start: int, u: int, v: int, dist: seq<Dist>, parent: seq<int>,
                  done: set<int>, E: set<Edge>)
    requires Wf(g) && |w| == |g.cells| && Shape(g, dist, parent) && 0 <= start < |g.cells|
    requires Tree(g, w, start, dist, parent, done, E) && dist[start] == Fin(0)
    requires 0 <= u < |g.cells| && u in done && dist[u].Fin? && 0 <= v < |g.cells| && v !in done && v != start
    ensures Tree(g, w, start, dist[v := Fin(dist[u].n + w[v])], parent[v := u], done, E + {(u, v)})
  {
    var dist', parent' := dist[v := Fin(dist[u].n + w[v])], parent[v := u];
    forall x | 0 <= x < |g.cells|
      ensures parent'[x] != -1 ==>
                && 0 <= parent'[x] < |g.cells| && parent'[x] in done && dist'[x].Fin? && dist'[parent'[x]].Fin?
                && dist'[x].n == dist'[parent'[x]].n + w[x] && (parent'[x], x) in E + {(u, v)}
      ensures dist'[x].Fin? && x != start ==> parent'[x] != -1
    {
      if x != v && parent[x] != -1 {
        assert parent[x] != v;
      }
    }
  }

  lemma RelaxLog(g: Grid, w: seq<nat>, start: int, u: int, v: int, events: seq<Event>, E: set<Edge>)
    requires Wf(g) && |w| == |g.cells| && Log(g, w, start, events, E) && 0 <= v < |g.cells| && v != start
    ensures Log(g, w, start, PushEvent(events, u, v, false, w[v]), E + {(u, v)})
  {
  }

  lemma RelaxQueue(g: Grid, h: seq<nat>, v: int, nv: nat, dist: seq<Dist>, pq: seq<Entry>, done: set<int>, u: int)
    requires Wf(g) && |h| == |g.cells| && |dist| == |g.cells| && 0 <= v < |g.cells| && v !in done + {u}
    requires Heap(g, h, dist, pq, done + {u}) && Waiting(h, dist, pq, done, {u}) && Below(Fin(nv), dist[v])
    ensures Heap(g, h, dist[v := Fin(nv)], pq + [(nv + h[v], v)], done + {u})
    ensures Waiting(h, dist[v := Fin(nv)], pq + [(nv + h[v], v)], done, {u})
  {
    var dist' := dist[v := Fin(nv)];
    var q := pq + [(nv + h[v], v)];
    assert (nv + h[v], v) !in pq;
    SingleAppend(h, dist, pq, v, nv);
    forall i | 0 <= i < |q| ensures Keyed(g, h, dist', done + {u}, q[i]) {
      if i < |pq| {
        assert q[i] == pq[i] && Keyed(g, h, dist, done + {u}, pq[i]);
      }
    }
    forall x | 0 <= x < |dist'| && dist'[x].Fin? && x !in done && x !in {u} ensures (dist'[x].n + h[x], x) in q {
      if x != v {
        assert (dist[x].n + h[x], x) in pq;
      }
    }
  }

  /** Queueing a cell's improved score, which no entry carried before. */
  lemma SingleAppend(h: seq<nat>, dist: seq<Dist>, pq: seq<Entry>, v: int, nv: nat)
    requires |h| == |dist| && Single(h, dist, pq) && 0 <= v < |dist|
    requires (nv + h[v], v) !in pq
    ensures Single(h, dist[v := Fin(nv)], pq + [(nv + h[v], v)])
  {
    var dist', e := dist[v := Fin(nv)], (nv + h[v], v);
    assert multiset(pq + [e]) == multiset(pq) + multiset{e};
    forall x | 0 <= x < |dist'| && dist'[x].Fin? ensures multiset(pq + [e])[Score(h, dist', x)] <= 1 {
      if x != v {
        assert Score(h, dist', x) == Score(h, dist, x) != e;
      }
    }
  }

  /** Relaxing the move from `u` in direction `d` to a neighbour it
      improves: new distance, parent, event and entry. */
  lemma RelaxStep(g: Grid, w: seq<nat>, h: seq<nat>, start: int, end: int, u: int, du: nat, dist: seq<Dist>,
                  parent: seq<int>, pq: seq<Entry>, events: seq<Event>, done: set<int>, E: set<Edge>, d: Dir, v: int)
    requires Expanding(g, w, h, start, end, u, du, dist, parent, pq, events, done, E, d)
    requires CanStep(g, u, d) && v == Neighbor(g, u, d) && Below(Fin(du + w[v]), dist[v])
    ensures Expanding(g, w, h, start, end, u, du, dist[v := Fin(du + w[v])], parent[v := u], pq + [(du + w[v] + h[v], v)],
                      PushEvent(events, u, v, false, w[v]), done, E + {(u, v)}, d + 1)
  {
    RelaxTreeParts(g, w, h, start, end, u, du, dist, parent, pq, events, done, E, d, v);
    RelaxQueueParts(g, w, h, start, end, u, du, dist, parent, pq, events, done, E, d, v);
    PackExpanding(g, w, h, start, end, u, du, dist[v := Fin(du + w[v])], parent[v := u], pq + [(du + w[v] + h[v], v)],
                  PushEvent(events, u, v, false, w[v]), done, E + {(u, v)}, d + 1);
  }

  /** The queue after one relaxation, and one more direction relaxed. */
  lemma RelaxQueueParts(g: Grid, w: seq<nat>, h: seq<nat>, start: int, end: int, u: int, du: nat, dist: seq<Dist>,
                   parent: seq<int>, pq: seq<Entry>, events: seq<Event>, done: set<int>, E: set<Edge>, d: Dir, v: int)
    requires Expanding(g, w, h, start, end, u, du, dist, parent, pq, events, done, E, d)
    requires CanStep(g, u, d) && v == Neighbor(g, u, d) && Below(Fin(du + w[v]), dist[v])
    ensures 0 <= v < |g.cells| && |dist| == |g.cells|
    ensures Heap(g, h, dist[v := Fin(du + w[v])], pq + [(du + w[v] + h[v], v)], done + {u})
    ensures Waiting(h, dist[v := Fin(du + w[v])], pq + [(du + w[v] + h[v], v)], done, {u})
    ensures Relaxed(g, w, dist[v := Fin(du + w[v])], u, d + 1)
  {
    StepByDir(g, u, d);
    RelaxFresh(g, w, start, u, v, dist, done);
    RelaxQueue(g, h, v, du + w[v], dist, pq, done, u);
    RelaxedGrow(g, w, u, v, du, dist, d);
  }

  /** The distances, parents, log and settled cells after one relaxation. */
  lemma RelaxTreeParts(g: Grid, w: seq<nat>, h: seq<nat>, start: int, end: int, u: int, du: nat, dist: seq<Dist>,
                       parent: seq<int>, pq: seq<Entry>, events: seq<Event>, done: set<int>, E: set<Edge>, d: Dir, v: int)
    requires Expanding(g, w, h, start, end, u, du, dist, parent, pq, events, done, E, d)
    requires CanStep(g, u, d) && v == Neighbor(g, u, d) && Below(Fin(du + w[v]), dist[v])
    ensures 0 <= v < |g.cells| && v != u && v !in done && |dist| == |g.cells|
    ensures Core(g, w, start, dist[v := Fin(du + w[v])], parent[v := u], PushEvent(events, u, v, false, w[v]),
                 done + {u}, E + {(u, v)})
    ensures Settled(g, w, start, dist[v := Fin(du + w[v])], done)
  {
    StepByDir(g, u, d);
    RelaxFresh(g, w, start, u, v, dist, done);
    RelaxCore(g, w, start, u, v, dist, parent, events, done, E);
    RelaxSettled(g, w, start, v, du + w[v], dist, done);
  }

  lemma RelaxCore(g: Grid, w: seq<nat>, start: int, u: int, v: int, dist: seq<Dist>, parent: seq<int>, events: seq<Event>,
                  done: set<int>, E: set<Edge>)
    requires Wf(g) && |w| == |g.cells| && Core(g, w, start, dist, parent, events, done + {u}, E)
    requires 0 <= u < |g.cells| && u !in done && dist[u].Fin? && Step(g, u, v) && 0 <= v < |g.cells|
    requires v !in done && v != u && Below(Fin(dist[u].n + w[v]), dist[v])
    ensures Core(g, w, start, dist[v := Fin(dist[u].n + w[v])], parent[v := u], PushEvent(events, u, v, false, w[v]),
                 done + {u}, E + {(u, v)})
  {
    assert v != start;
    RelaxSound(g, w, start, u, v, dist);
    RelaxTree(g, w, start, u, v, dist, parent, done + {u}, E);
    RelaxLog(g, w, start, u, v, events, E);
    LegalAdd(g, E, u, v);
  }

  lemma RelaxedGrow(g: Grid, w: seq<nat>, u: int, v: int, du: nat, dist: seq<Dist>, d: Dir)
    requires Wf(g) && |w| == |g.cells| && |dist| == |g.cells| && 0 <= u < |g.cells| && dist[u] == Fin(du)
    requires 0 <= v < |g.cells| && v != u && v == Neighbor(g, u, d) && Relaxed(g, w, dist, u, d)
    requires Below(Fin(du + w[v]), dist[v])
    ensures Relaxed(g, w, dist[v := Fin(du + w[v])], u, d + 1)
  {
  }

  /** A move that is blocked, or that does not improve its target, leaves
      the state as it is and one more direction relaxed. */
  lemma SkipStep(g: Grid, w: seq<nat>, h: seq<nat>, start: int, end: int, u: int, du: nat, dist: seq<Dist>,
                 parent: seq<int>, pq: seq<Entry>, events: seq<Event>, done: set<int>, E: set<Edge>, d: Dir)
    requires Expanding(g, w, h, start, end, u, du, dist, parent, pq, events, done, E, d)
    requires CanStep(g, u, d) ==> !Below(Fin(du + w[Neighbor(g, u, d)]), dist[Neighbor(g, u, d)])
    ensures Expanding(g, w, h, start, end, u, du, dist, parent, pq, events, done, E, d + 1)
  {
  }

  /** Direction `d` of `u`: a neighbour behind no wall and not blocked is
      relaxed when going through `u` is strictly cheaper. */
  method RelaxDir(g: Grid, w: seq<nat>, h: seq<nat>, start: int, end: int, u: int, du: nat, dist: seq<Dist>,
                  parent: seq<int>, pq: seq<Entry>, events: seq<Event>, ghost done: set<int>, ghost E: set<Edge>, d: Dir)
    returns (dist': seq<Dist>, parent': seq<int>, pq': seq<Entry>, events': seq<Event>, ghost E': set<Edge>)
    requires Expanding(g, w, h, start, end, u, du, dist, parent, pq, events, done, E, d)
    ensures Expanding(g, w, h, start, end, u, du, dist', parent', pq', events', done, E', d + 1)
    ensures |pq'| <= |pq| + 1
    ensures forall x :: 0 <= x < |dist| ==> dist'[x] == dist[x] || Below(dist'[x], dist[x])
    ensures forall x :: 0 <= x < |dist| ==> if dist'[x] == dist[x] then parent'[x] == parent[x] else parent'[x] == u
    ensures |events'| == (if dist' == dist then |events| else |events| + 1) && events'[..|events|] == events
  {
    dist', parent', pq', events', E' := dist, parent, pq, events, E;
    var v := Neighbor(g, u, d);
    if CanStep(g, u, d) && Below(Fin(du + w[v]), dist[v]) {
      RelaxStep(g, w, h, start, end, u, du, dist, parent, pq, events, done, E, d, v);
      dist', parent' := dist[v := Fin(du + w[v])], parent[v := u];
      events', pq' := PushEvent(events, u, v, false, w[v]), pq + [(du + w[v] + h[v], v)];
      E' := E + {(u, v)};
    } else {
      SkipStep(g, w, h, start, end, u, du, dist, parent, pq, events, done, E, d);
    }
  }

  /** The loop over the four directions of `u`, in the program's order. */
  method Expand(g: Grid, w: seq<nat>, h: seq<nat>, start: int, end: int, u: int, du: nat, dist: seq<Dist>,
                parent: seq<int>, pq: seq<Entry>, events: seq<Event>, ghost done: set<int>, ghost E: set<Edge>)
    returns (dist': seq<Dist>, parent': seq<int>, pq': seq<Entry>, events': seq<Event>, ghost E': set<Edge>)
    requires Expanding(g, w, h, start, end, u, du, dist, parent, pq, events, done, E, 0)
    ensures Expanding(g, w, h, start, end, u, du, dist', parent', pq', events', done, E', 4)
    ensures |pq'| <= |pq| + 4
  {
    dist', parent', pq', events', E' := dist, parent, pq, events, E;
    var d: nat := 0;
    while d < 4
      invariant d <= 4 && Expanding(g, w, h, start, end, u, du, dist', parent', pq', events', done, E', d)
      invariant |pq'| <= |pq| + d
    {
      dist', parent', pq', events', E' := RelaxDir(g, w, h, start, end, u, du, dist', parent', pq', events', done, E', d);
      d := d + 1;
    }
  }

  /** A stale entry is dropped and nothing else changes. */
  lemma PopStale(g: Grid, w: seq<nat>, h: seq<nat>, start: int, end: int, dist: seq<Dist>, parent: seq<int>,
                 pq: seq<Entry>, events: seq<Event>, done: set<int>, E: set<Edge>, m: nat)
    requires Inv(g, w, h, start, end, dist, parent, pq, events, done, E, false) && m < |pq|
    requires Plus(dist[pq[m].1], h[pq[m].1]) != Fin(pq[m].0)
    ensures Inv(g, w, h, start, end, dist, parent, Remove(pq, m), events, done, E, false)
  {
    assert pq[m] in pq;
    SingleRemove(h, dist, pq, m);
  }

  /** The end taken fresh from the queue: the search stops at its true
      distance. */
  lemma PopFound(g: Grid, w: seq<nat>, h: seq<nat>, start: int, end: int, dist: seq<Dist>, parent: seq<int>,
                 pq: seq<Entry>, events: seq<Event>, done: set<int>, E: set<Edge>, m: nat)
    requires Inv(g, w, h, start, end, dist, parent, pq, events, done, E, false) && m < |pq|
    requires Plus(dist[pq[m].1], h[pq[m].1]) == Fin(pq[m].0) && pq[m].1 == end
    requires NoCheaper(g, w, start, end, dist[end].n)
    ensures Inv(g, w, h, start, end, dist, parent, Remove(pq, m), events, done, E, true)
  {
    SingleRemove(h, dist, pq, m);
  }

  /** Any other cell taken fresh from the queue is expanded. */
  lemma PopExpand(g: Grid, w: seq<nat>, h: seq<nat>, start: int, end: int, dist: seq<Dist>, parent: seq<int>,
                  pq: seq<Entry>, events: seq<Event>, done: set<int>, E: set<Edge>, m: nat)
    requires Inv(g, w, h, start, end, dist, parent, pq, events, done, E, false) && m < |pq|
    requires Plus(dist[pq[m].1], h[pq[m].1]) == Fin(pq[m].0) && pq[m].1 != end
    requires pq[m].1 !in done && NoCheaper(g, w, start, pq[m].1, dist[pq[m].1].n)
    ensures Expanding(g, w, h, start, end, pq[m].1, dist[pq[m].1].n, dist, parent, Remove(pq, m), events, done, E, 0)
  {
    var u := pq[m].1;
    HeapPop(g, h, dist, pq, done, m);
    WaitingPop(h, dist, pq, done, m);
    CoreGrow(g, w, start, dist, parent, events, done, E, u);
    PackExpanding(g, w, h, start, end, u, dist[u].n, dist, parent, Remove(pq, m), events, done, E, 0);
  }

  /** Popping the current entry of `u`: what is left is keyed strictly above
      the scores of the expanded cells and of `u`. */
  lemma HeapPop(g: Grid, h: seq<nat>, dist: seq<Dist>, pq: seq<Entry>, done: set<int>, m: nat)
    requires Wf(g) && |h| == |g.cells| && |dist| == |g.cells| && Heap(g, h, dist, pq, done) && m < |pq|
    requires dist[pq[m].1].Fin? && pq[m].0 == dist[pq[m].1].n + h[pq[m].1]
    ensures Heap(g, h, dist, Remove(pq, m), done + {pq[m].1})
  {
    var u := pq[m].1;
    var r := Remove(pq, m);
    SingleRemove(h, dist, pq, m);
    SingleGone(h, dist, pq, m);
    forall i | 0 <= i < |r| ensures Keyed(g, h, dist, done + {u}, r[i]) {
      var j := if i < m then i else i + 1;
      assert r[i] == pq[j] && r[i].0 == pq[j].0 && r[i].1 == pq[j].1;
      assert r[i] in r;
    }
  }

  /** Popping the current entry of `u` leaves every other waiting cell
      queued. */
  lemma WaitingPop(h: seq<nat>, dist: seq<Dist>, pq: seq<Entry>, done: set<int>, m: nat)
    requires |h| == |dist| && Waiting(h, dist, pq, done, {}) && m < |pq|
    ensures Waiting(h, dist, Remove(pq, m), done, {pq[m].1})
  {
    var r := Remove(pq, m);
    forall v | 0 <= v < |dist| && dist[v].Fin? && v !in done && v !in {pq[m].1} ensures (dist[v].n + h[v], v) in r {
      var j :| 0 <= j < |pq| && pq[j] == (dist[v].n + h[v], v);
      assert j != m;
      assert r[if j < m then j else j - 1] == pq[j];
    }
  }

  /** Links into expanded cells stay links into expanded cells as the set
      grows. */
  lemma CoreGrow(g: Grid, w: seq<nat>, start: int, dist: seq<Dist>, parent: seq<int>, events: seq<Event>,
                 done: set<int>, E: set<Edge>, u: int)
    requires Wf(g) && |w| == |g.cells| && Core(g, w, start, dist, parent, events, done, E)
    ensures Core(g, w, start, dist, parent, events, done + {u}, E)
  {
  }

  /** After its four directions `u` joins the expanded cells. */
  lemma Settle(g: Grid, w: seq<nat>, h: seq<nat>, start: int, end: int, u: int, du: nat, dist: seq<Dist>,
               parent: seq<int>, pq: seq<Entry>, events: seq<Event>, done: set<int>, E: set<Edge>)
    requires Problem(g, w, h, start, end) && Expanding(g, w, h, start, end, u, du, dist, parent, pq, events, done, E, 4)
    requires u != end
    ensures Inv(g, w, h, start, end, dist, parent, pq, events, done + {u}, E, false)
  {
    SettleAdd(g, w, start, dist, done, u);
    WaitingShift(h, dist, pq, done, u);
    PackInv(g, w, h, start, end, dist, parent, pq, events, done + {u}, E, false);
  }

  lemma SettleAdd(g: Grid, w: seq<nat>, start: int, dist: seq<Dist>, done: set<int>, u: int)
    requires Wf(g) && |w| == |g.cells| && |dist| == |g.cells| && Settled(g, w, start, dist, done)
    requires 0 <= u < |g.cells| && dist[u].Fin? && NoCheaper(g, w, start, u, dist[u].n) && Relaxed(g, w, dist, u, 4)
    ensures Settled(g, w, start, dist, done + {u})
  {
  }

  lemma WaitingShift(h: seq<nat>, dist: seq<Dist>, pq: seq<Entry>, done: set<int>, u: int)
    requires |h| == |dist| && Waiting(h, dist, pq, done, {u})
    ensures Waiting(h, dist, pq, done + {u}, {})
  {
  }

  lemma PackInv(g: Grid, w: seq<nat>, h: seq<nat>, start: int, end: int, dist: seq<Dist>, parent: seq<int>,
                pq: seq<Entry>, events: seq<Event>, done: set<int>, E: set<Edge>, found: bool)
    requires Problem(g, w, h, start, end) && end !in done
    requires Core(g, w, start, dist, parent, events, done, E) && Settled(g, w, start, dist, done)
    requires Heap(g, h, dist, pq, done) && Waiting(h, dist, pq, done, if found then {end} else {})
    requires found ==> dist[end].Fin? && NoCheaper(g, w, start, end, dist[end].n)
    ensures Inv(g, w, h, start, end, dist, parent, pq, events, done, E, found)
  {
  }

  /** One turn of the main loop: take the top entry; drop it when stale,
      stop at the end, expand anything else. */
  method Round(g: Grid, w: seq<nat>, h: seq<nat>, start: int, end: int, dist: seq<Dist>, parent: seq<int>,
               pq: seq<Entry>, events: seq<Event>, ghost done: set<int>, ghost E: set<Edge>)
    returns (found: bool, dist': seq<Dist>, parent': seq<int>, pq': seq<Entry>, events': seq<Event>,
             ghost done': set<int>, ghost E': set<Edge>)
    requires Inv(g, w, h, start, end, dist, parent, pq, events, done, E, false) && |pq| > 0
    ensures Inv(g, w, h, start, end, dist', parent', pq', events', done', E', found)
    ensures done <= done' && |done'| <= |done| + 1
    ensures |pq'| + 4 * |done| < |pq| + 4 * |done'|
    ensures found <==> exists m :: IsTop(pq, m) && pq[m].1 == end && Plus(dist[end], h[end]) == Fin(pq[m].0)
    ensures found ==> dist' == dist && parent' == parent && events' == events
  {
    var m := MinIndex(pq);
    TopDetermined(pq, m);
    var (k, u) := pq[m];
    pq' := Remove(pq, m);
    found := false;
    dist', parent', events', done', E' := dist, parent, events, done, E;
    if Plus(dist[u], h[u]) != Fin(k) {
      PopStale(g, w, h, start, end, dist, parent, pq, events, done, E, m);
    } else {
      PopOptimal(g, w, h, start, end, dist, pq, done, m);
      if u == end {
        PopFound(g, w, h, start, end, dist, parent, pq, events, done, E, m);
        found := true;
      } else {
        PopExpand(g, w, h, start, end, dist, parent, pq, events, done, E, m);
        dist', parent', pq', events', E' := Expand(g, w, h, start, end, u, dist[u].n, dist, parent, pq', events, done, E);
        Settle(g, w, h, start, end, u, dist[u].n, dist', parent', pq', events', done, E');
        done' := done + {u};
      }
    }
  }

  /** The initial state: the start at distance zero, its entry queued. */
  lemma Initial(g: Grid, w: seq<nat>, h: seq<nat>, start: int, end: int, dist: seq<Dist>, parent: seq<int>)
    requires Problem(g, w, h, start, end)
    requires dist == seq(|g.cells|, _ => Inf)[start := Fin(0)] && parent == seq(|g.cells|, _ => -1)
    ensures Inv(g, w, h, start, end, dist, parent, [(h[start], start)], [], {}, {}, false)
  {
    AchievedStart(g, w, start);
  }

  /** The distances rank the parent links: each parent is strictly closer. */
  lemma TreeRanked(g: Grid, w: seq<nat>, start: int, dist: seq<Dist>, parent: seq<int>, done: set<int>, E: set<Edge>)
    requires Wf(g) && |w| == |g.cells| && Shape(g, dist, parent) && 0 <= start < |g.cells|
    requires Tree(g, w, start, dist, parent, done, E) && forall i :: 0 <= i < |w| ==> w[i] >= 1
    ensures Ranked(parent, Ranks(dist))
  {
  }

  function Ranks(dist: seq<Dist>): (r: seq<nat>)
    ensures |r| == |dist| && forall v :: 0 <= v < |dist| && dist[v].Fin? ==> r[v] == dist[v].n
  {
    seq(|dist|, v requires 0 <= v < |dist| => if dist[v].Fin? then dist[v].n else 0)
  }

  /** The read-back path is made of checked moves. */
  lemma PathLegal(g: Grid, w: seq<nat>, start: int, dist: seq<Dist>, parent: seq<int>, done: set<int>,
                  E: set<Edge>, end: int, path: seq<Edge>)
    requires Wf(g) && |w| == |g.cells| && 0 <= start < |g.cells| && 0 <= end < |g.cells| && Shape(g, dist, parent)
    requires Legal(g, E) && Tree(g, w, start, dist, parent, done, E) && ReadBack(parent, end, path)
    ensures forall k :: 0 <= k < |path| ==> 0 <= path[k].0 < |g.cells| && Step(g, path[k].0, path[k].1)
  {
    forall k | 0 <= k < |path| ensures 0 <= path[k].0 < |g.cells| && Step(g, path[k].0, path[k].1) {
      assert (path[k].0, path[k].1) in E;
    }
  }

  /** Along the read-back path each cell's distance is the cost of the walk
      up to it. */
  lemma {:induction false} PathDist(g: Grid, w: seq<nat>, start: int, dist: seq<Dist>, parent: seq<int>, done: set<int>,
                                    E: set<Edge>, end: int, path: seq<Edge>, n: nat)
    requires Wf(g) && |w| == |g.cells| && 0 <= start < |g.cells| && 0 <= end < |g.cells| && Shape(g, dist, parent)
    requires Tree(g, w, start, dist, parent, done, E) && ReadBack(parent, end, path) && dist[start] == Fin(0)
    requires |path| > 0 && path[0].0 == start && 1 <= n <= |path| + 1
    ensures InRange(PathCells(start, path), |w|)
    ensures var p := PathCells(start, path); dist[p[n - 1]].Fin? && dist[p[n - 1]].n == Cost(w, p[..n])
  {
    var p := PathCells(start, path);
    if n > 1 {
      PathDist(g, w, start, dist, parent, done, E, end, path, n - 1);
      assert p[n - 1] == path[n - 2].1;
      assert parent[p[n - 1]] == p[n - 2] by {
        if n > 2 {
          assert path[n - 3].1 == path[n - 2].0;
        }
      }
      assert p[..n][..n - 1] == p[..n - 1];
    }
  }

  /** A non-empty read-back path starts at the start: the parent links stop
      only there. */
  lemma PathRoot(g: Grid, w: seq<nat>, start: int, dist: seq<Dist>, parent: seq<int>, done: set<int>,
                 E: set<Edge>, end: int, path: seq<Edge>)
    requires Wf(g) && |w| == |g.cells| && 0 <= start < |g.cells| && 0 <= end < |g.cells| && Shape(g, dist, parent)
    requires Tree(g, w, start, dist, parent, done, E) && ReadBack(parent, end, path) && |path| > 0
    ensures path[0].0 == start
  {
    assert dist[path[0].1].Fin?;
  }

  /** When the end was taken fresh from the queue, the path read back from
      it is a walk from the start of least cost. */
  lemma FinishFound(g: Grid, w: seq<nat>, start: int, end: int, dist: seq<Dist>, parent: seq<int>, done: set<int>,
                    E: set<Edge>, path: seq<Edge>)
    requires Wf(g) && |w| == |g.cells| && 0 <= start < |g.cells| && 0 <= end < |g.cells| && Shape(g, dist, parent)
    requires Legal(g, E) && Tree(g, w, start, dist, parent, done, E) && Sound(g, w, start, dist)
    requires dist[end].Fin? && NoCheaper(g, w, start, end, dist[end].n)
    requires ReadBack(parent, end, path)
    ensures Reachable(g, start, end)
    ensures |path| > 0 <==> start != end
    ensures EdgeWalk(g, path, start, end) && InRange(PathCells(start, path), |w|)
    ensures NoCheaper(g, w, start, end, Cost(w, PathCells(start, path)))
  {
    FoundReachable(g, w, start, end, dist);
    if |path| > 0 {
      PathWalk(g, w, start, end, dist, parent, done, E, path);
    } else {
      assert end == start;
    }
  }

  lemma FoundReachable(g: Grid, w: seq<nat>, start: int, end: int, dist: seq<Dist>)
    requires Wf(g) && |w| == |g.cells| && |dist| == |g.cells| && 0 <= end < |g.cells|
    requires Sound(g, w, start, dist) && dist[end].Fin?
    ensures Reachable(g, start, end)
  {
    assert Achieved(g, w, start, end, dist[end].n);
  }

  /** A non-empty read-back path is an edge walk from the start whose cost is
      the end's distance. */
  lemma PathWalk(g: Grid, w: seq<nat>, start: int, end: int, dist: seq<Dist>, parent: seq<int>, done: set<int>,
                 E: set<Edge>, path: seq<Edge>)
    requires Wf(g) && |w| == |g.cells| && 0 <= start < |g.cells| && 0 <= end < |g.cells| && Shape(g, dist, parent)
    requires Legal(g, E) && Tree(g, w, start, dist, parent, done, E) && dist[start] == Fin(0)
    requires ReadBack(parent, end, path) && |path| > 0
    ensures EdgeWalk(g, path, start, end) && InRange(PathCells(start, path), |w|)
    ensures dist[end].Fin? && Cost(w, PathCells(start, path)) == dist[end].n
  {
    PathLegal(g, w, start, dist, parent, done, E, end, path);
    PathRoot(g, w, start, dist, parent, done, E, end, path);
    PathDist(g, w, start, dist, parent, done, E, end, path, |path| + 1);
    assert PathCells(start, path)[..|path| + 1] == PathCells(start, path);
  }

  /** With the queue empty and the end never taken, the expanded cells are
      closed under moves: the end cannot be reached, and has no parent. */
  lemma ClosedDone(g: Grid, w: seq<nat>, h: seq<nat>, start: int, end: int, dist: seq<Dist>, parent: seq<int>,
                   events: seq<Event>, done: set<int>, E: set<Edge>)
    requires Inv(g, w, h, start, end, dist, parent, [], events, done, E, false)
    ensures !Reachable(g, start, end) && parent[end] == -1
  {
    forall x, d: Dir | x in done && 0 <= x < |g.cells| && CanStep(g, x, d) ensures Neighbor(g, x, d) in done {
      assert Relaxed(g, w, dist, x, 4);
    }
    ClosedUnreachable(g, done, start, end);
  }

  /** The log's moves are traversable improvements, none into the start. */
  lemma LogFacts(g: Grid, w: seq<nat>, start: int, events: seq<Event>, E: set<Edge>)
    requires Wf(g) && |w| == |g.cells| && Legal(g, E) && Log(g, w, start, events, E)
    ensures forall k :: 0 <= k < |events| ==>
      0 <= events[k].u < |g.cells| && Step(g, events[k].u, events[k].v) && 0 <= events[k].v < |g.cells|
      && events[k].cost == w[events[k].v] && events[k].v != start
  {
    forall k | 0 <= k < |events| ensures 0 <= events[k].u < |g.cells| && Step(g, events[k].u, events[k].v) {
      assert (events[k].u, events[k].v) in E;
    }
  }

  /** The search. Every event is a traversable move into a cell other than
      the start, logged with the cost of entering it. The path is non-empty
      exactly when the end is reachable and differs from the start; it is
      then a walk from start to end that no walk undercuts. An event is
      marked exactly when its move is on the path. */
  method Solve(g: Grid, w: seq<nat>, h: seq<nat>, start: int, end: int) returns (events: seq<Event>, path: seq<Edge>)
    requires Problem(g, w, h, start, end)
    ensures forall k :: 0 <= k < |events| ==>
      0 <= events[k].u < |g.cells| && Step(g, events[k].u, events[k].v) && 0 <= events[k].v < |g.cells|
      && events[k].cost == w[events[k].v] && events[k].v != start
    ensures forall k :: 0 <= k < |events| ==> (events[k].ok <==> (events[k].u, events[k].v) in path)
    ensures |path| > 0 <==> Reachable(g, start, end) && start != end
    ensures Reachable(g, start, end) ==>
      EdgeWalk(g, path, start, end) && InRange(PathCells(start, path), |w|)
      && NoCheaper(g, w, start, end, Cost(w, PathCells(start, path)))
  {
    var dist := seq(|g.cells|, _ => Inf)[start := Fin(0)];
    var parent := seq(|g.cells|, _ => -1);
    var pq: seq<Entry> := [(h[start], start)];
    var log := [];
    ghost var done: set<int> := {};
    ghost var E: set<Edge> := {};
    Initial(g, w, h, start, end, dist, parent);
    var found := false;
    while |pq| > 0 && !found
      invariant Inv(g, w, h, start, end, dist, parent, pq, log, done, E, found)
      decreases 4 * (|g.cells| - |done|) + |pq|
    {
      CardRange(done, |g.cells|);
      found, dist, parent, pq, log, done, E := Round(g, w, h, start, end, dist, parent, pq, log, done, E);
      CardRange(done, |g.cells|);
    }
    LogFacts(g, w, start, log, E);
    TreeRanked(g, w, start, dist, parent, done, E);
    path := Reconstruct(parent, end, Ranks(dist));
    if found {
      FinishFound(g, w, start, end, dist, parent, done, E, path);
    } else {
      ClosedDone(g, w, h, start, end, dist, parent, log, done, E);
    }
    events := MarkPath(log, path);
  }
}
