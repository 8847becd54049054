/** `solveDFS`: a recursive depth-first search that logs every move it tries
    and every move it takes back. */
module DepthFirst {
  import opened Grid
  import opened Search
  import opened Events

  /** The number of cells not yet visited: the recursion's measure. */
  function Unvisited(vis: seq<bool>): nat {
    if vis == [] then 0 else Unvisited(vis[..|vis| - 1]) + (if vis[|vis| - 1] then 0 else 1)
  }

  /** Every cell visited in `a` is visited in `b`. */
  ghost predicate Grows(a: seq<bool>, b: seq<bool>) {
    |a| == |b| && forall i :: 0 <= i < |a| && a[i] ==> b[i]
  }

  lemma {:induction false} UnvisitedMono(a: seq<bool>, b: seq<bool>)
    requires Grows(a, b)
    ensures Unvisited(b) <= Unvisited(a)
    decreases |a|
  {
    if a != [] {
      UnvisitedMono(a[..|a| - 1], b[..|b| - 1]);
    }
  }

  lemma {:induction false} UnvisitedMark(vis: seq<bool>, v: int)
    requires 0 <= v < |vis| && !vis[v]
    ensures Unvisited(vis[v := true]) + 1 == Unvisited(vis)
    decreases |vis|
  {
    var w := vis[v := true];
    if v < |vis| - 1 {
      assert w[..|w| - 1] == vis[..|vis| - 1][v := true];
      UnvisitedMark(vis[..|vis| - 1], v);
    } else {
      assert w[..|w| - 1] == vis[..|vis| - 1];
    }
  }

  /** Every traversable neighbour of `x` is visited. */
  ghost predicate Expanded(g: Grid, vis: seq<bool>, x: int)
    requires Wf(g) && |vis| == |g.cells| && 0 <= x < |g.cells|
  {
    forall d: Dir :: CanStep(g, x, d) ==> vis[Neighbor(g, x, d)]
  }

  /** Every event is a traversable move and carries the unit cost. */
  ghost predicate Moves(g: Grid, log: seq<Event>)
    requires Wf(g)
  {
    forall k :: 0 <= k < |log| ==> 0 <= log[k].u < |g.cells| && Step(g, log[k].u, log[k].v) && log[k].cost == 1
  }

  /** The accepted events enter distinct cells, each unvisited in `before`
      and visited in `after`. */
  ghost predicate EntersOnce(log: seq<Event>, before: seq<bool>, after: seq<bool>)
    requires |before| == |after|
  {
    && (forall k :: 0 <= k < |log| && log[k].ok ==> 0 <= log[k].v < |before| && !before[log[k].v] && after[log[k].v])
    && (forall i, j :: 0 <= i < j < |log| && log[i].ok && log[j].ok ==> log[i].v != log[j].v)
  }

  /** The cells first visited between `before` and `after` are not the end
      and have all their neighbours visited. */
  ghost predicate NewExpanded(g: Grid, end: int, before: seq<bool>, after: seq<bool>)
    requires Wf(g) && |before| == |g.cells| && |after| == |g.cells|
  {
    forall x :: 0 <= x < |after| && after[x] && !before[x] ==> x != end && Expanded(g, after, x)
  }

  /** `dfsRec(u)`, with the visited flags and the log threaded through. On
      success the log retraces to a walk from `u` to the end; on failure it
      retraces to nothing, `u` is not the end, and `u` and every cell it newly
      visited have all their neighbours visited. */
  method Visit(g: Grid, end: int, u: int, vis: seq<bool>) returns (found: bool, vis': seq<bool>, log: seq<Event>)
    requires Wf(g) && |vis| == |g.cells| && 0 <= u < |g.cells| && vis[u]
    ensures Grows(vis, vis') && Moves(g, log) && EntersOnce(log, vis, vis')
    ensures found ==> Retrace([], log).Some? && EdgeWalk(g, Retrace([], log).value, u, end)
    ensures !found ==> Retrace([], log) == Some([])
    ensures !found ==> u != end && Expanded(g, vis', u) && NewExpanded(g, end, vis, vis')
    decreases Unvisited(vis)
  {
    if u == end {
      assert EdgeWalk(g, [], u, end);
      return true, vis, [];
    }
    vis' := vis;
    log := [];
    var d := 0;
    while d < 4
      invariant 0 <= d <= 4
      invariant Grows(vis, vis') && Moves(g, log) && EntersOnce(log, vis, vis')
      invariant Retrace([], log) == Some([])
      invariant forall e: Dir :: e < d && CanStep(g, u, e) ==> vis'[Neighbor(g, u, e)]
      invariant NewExpanded(g, end, vis, vis')
    {
      var v := Neighbor(g, u, d);
      if v < 0 || Wall(g.cells[u], d) || vis'[v] || g.cells[v].blocked {
        d := d + 1;
      } else {
        StepByDir(g, u, d);
        UnvisitedMono(vis, vis');
        UnvisitedMark(vis', v);
        var f, vis2, sub := Visit(g, end, v, vis'[v := true]);
        var pushed := PushEvent(log, u, v, true, 1);
        if f {
          RetraceFound(log, u, v, sub);
          EdgeWalkCons(g, u, v, Retrace([], sub).value, end);
          JoinFacts(g, vis, vis', u, v, vis2, log, sub);
          return true, vis2, pushed + sub;
        }
        RetraceNested(log, u, v, sub);
        JoinFacts(g, vis, vis', u, v, vis2, log, sub);
        JoinExpanded(g, u, end, vis, vis', v, vis2, d);
        log := PushEvent(pushed + sub, u, v, false, 1);
        vis' := vis2;
        d := d + 1;
      }
    }
    return false, vis', log;
  }

  /** The log of one tried move: its acceptance, the recursive log, and (on
      failure) its retraction keep every event a move entering a fresh cell. */
  lemma JoinFacts(g: Grid, vis: seq<bool>, mid: seq<bool>, u: int, v: int, after: seq<bool>, log: seq<Event>, sub: seq<Event>)
    requires Wf(g) && |vis| == |g.cells| && Grows(vis, mid) && 0 <= v < |mid| && !mid[v]
    requires 0 <= u < |g.cells| && Step(g, u, v)
    requires Grows(mid[v := true], after)
    requires Moves(g, log) && EntersOnce(log, vis, mid)
    requires Moves(g, sub) && EntersOnce(sub, mid[v := true], after)
    ensures Moves(g, PushEvent(log, u, v, true, 1) + sub)
    ensures Moves(g, PushEvent(PushEvent(log, u, v, true, 1) + sub, u, v, false, 1))
    ensures EntersOnce(PushEvent(log, u, v, true, 1) + sub, vis, after)
    ensures EntersOnce(PushEvent(PushEvent(log, u, v, true, 1) + sub, u, v, false, 1), vis, after)
    ensures Grows(vis, after)
  {
    var full := PushEvent(log, u, v, true, 1) + sub;
    JoinMoves(g, u, v, log, sub);
    assert full[..|log|] == log && full[|log| + 1..] == sub;
    JoinEnters(vis, mid, v, after, full, |log|);
    var last := PushEvent(full, u, v, false, 1);
    assert last[..|log|] == log && last[|log| + 1..] == sub + [Event(u, v, false, 1)];
    EntersOnceRetract(sub, mid[v := true], after, u, v);
    JoinEnters(vis, mid, v, after, last, |log|);
  }

  lemma JoinMoves(g: Grid, u: int, v: int, log: seq<Event>, sub: seq<Event>)
    requires Wf(g) && 0 <= u < |g.cells| && Step(g, u, v) && Moves(g, log) && Moves(g, sub)
    ensures Moves(g, PushEvent(log, u, v, true, 1) + sub)
    ensures Moves(g, PushEvent(PushEvent(log, u, v, true, 1) + sub, u, v, false, 1))
  {
    var full := PushEvent(log, u, v, true, 1) + sub;
    assert forall k :: |log| < k < |full| ==> full[k] == sub[k - |log| - 1];
  }

  /** A rejected event adds no entry. */
  lemma EntersOnceRetract(log: seq<Event>, before: seq<bool>, after: seq<bool>, u: int, v: int)
    requires |before| == |after| && EntersOnce(log, before, after)
    ensures EntersOnce(log + [Event(u, v, false, 1)], before, after)
  {
  }

  /** `full` is a log whose first `n` events come from `mid`'s search, whose
      event `n` enters `v`, and whose rest comes from the search from `v`. */
  lemma JoinEnters(vis: seq<bool>, mid: seq<bool>, v: int, after: seq<bool>, full: seq<Event>, n: nat)
    requires Grows(vis, mid) && 0 <= v < |mid| && !mid[v] && Grows(mid[v := true], after)
    requires n < |full| && full[n].ok && full[n].v == v
    requires EntersOnce(full[..n], vis, mid) && EntersOnce(full[n + 1..], mid[v := true], after)
    ensures EntersOnce(full, vis, after)
  {
    assert forall k :: 0 <= k < n ==> full[k] == full[..n][k];
    assert forall k :: n < k < |full| ==> full[k] == full[n + 1..][k - n - 1];
    forall i, j | 0 <= i < j < |full| && full[i].ok && full[j].ok ensures full[i].v != full[j].v {
      if j > n && i <= n {
        assert mid[v := true][full[i].v];
      }
    }
  }

  /** After a failed try of `v` from `u`, the first `d + 1` directions of
      `u` lead to visited cells and the newly visited cells stay expanded. */
  lemma JoinExpanded(g: Grid, u: int, end: int, vis: seq<bool>, mid: seq<bool>, v: int, after: seq<bool>, d: Dir)
    requires Wf(g) && |vis| == |g.cells| && 0 <= u < |g.cells| && Grows(vis, mid)
    requires v == Neighbor(g, u, d) && 0 <= v < |mid| && !mid[v]
    requires Grows(mid[v := true], after)
    requires forall e: Dir :: e < d && CanStep(g, u, e) ==> mid[Neighbor(g, u, e)]
    requires NewExpanded(g, end, vis, mid)
    requires v != end && Expanded(g, after, v) && NewExpanded(g, end, mid[v := true], after)
    ensures forall e: Dir :: e < d + 1 && CanStep(g, u, e) ==> after[Neighbor(g, u, e)]
    ensures NewExpanded(g, end, vis, after)
  {
    forall x | 0 <= x < |after| && after[x] && !vis[x] ensures x != end && Expanded(g, after, x) {
      if mid[x] {
        assert Expanded(g, mid, x);
      }
    }
  }

  lemma RetraceNested(log: seq<Event>, u: int, v: int, sub: seq<Event>)
    requires Retrace([], log) == Some([]) && Retrace([], sub) == Some([])
    ensures Retrace([], PushEvent(PushEvent(log, u, v, true, 1) + sub, u, v, false, 1)) == Some([])
  {
    var push := [Event(u, v, true, 1)];
    var pop := [Event(u, v, false, 1)];
    assert PushEvent(PushEvent(log, u, v, true, 1) + sub, u, v, false, 1) == log + (push + (sub + pop));
    RetraceAppend([], log, push + (sub + pop));
    RetracePush(u, v, sub + pop);
    RetraceAppend([(u, v)], sub, pop);
    RetraceFrame([(u, v)], [], sub);
    assert [(u, v)] + [] == [(u, v)];
    assert pop[1..] == [] && [(u, v)][..0] == [];
  }

  lemma RetraceFound(log: seq<Event>, u: int, v: int, sub: seq<Event>)
    requires Retrace([], log) == Some([]) && Retrace([], sub).Some?
    ensures Retrace([], PushEvent(log, u, v, true, 1) + sub) == Some([(u, v)] + Retrace([], sub).value)
  {
    var push := [Event(u, v, true, 1)];
    assert PushEvent(log, u, v, true, 1) + sub == log + (push + sub);
    RetraceAppend([], log, push + sub);
    RetracePush(u, v, sub);
    RetraceFrame([(u, v)], [], sub);
    assert [(u, v)] + [] == [(u, v)];
  }

  /** An accepted event first puts its move on an empty stack. */
  lemma RetracePush(u: int, v: int, rest: seq<Event>)
    ensures Retrace([], [Event(u, v, true, 1)] + rest) == Retrace([(u, v)], rest)
  {
    var l := [Event(u, v, true, 1)] + rest;
    assert l[0] == Event(u, v, true, 1) && l[1..] == rest;
    assert [] + [(u, v)] == [(u, v)];
  }

  /** `solveDFS`: the start is marked visited and the search runs from it.
      The log retraces cleanly; the search finds the end exactly when the end
      is reachable, and then the retraced moves are a walk from start to end;
      every accepted event enters a distinct cell other than the start. */
  method SolveDFS(g: Grid, start: int, end: int) returns (found: bool, events: seq<Event>)
    requires Wf(g) && 0 <= start < |g.cells| && 0 <= end < |g.cells|
    ensures Moves(g, events)
    ensures forall k :: 0 <= k < |events| && events[k].ok ==> events[k].v != start
    ensures forall i, j :: 0 <= i < j < |events| && events[i].ok && events[j].ok ==> events[i].v != events[j].v
    ensures Retrace([], events).Some?
    ensures found <==> Reachable(g, start, end)
    ensures found ==> EdgeWalk(g, Retrace([], events).value, start, end)
    ensures !found ==> Retrace([], events) == Some([])
  {
    var vis := seq(|g.cells|, _ => false)[start := true];
    var after;
    found, after, events := Visit(g, end, start, vis);
    if found {
      EdgeWalkCells(g, Retrace([], events).value, start, end);
    } else {
      var S := set x | 0 <= x < |after| && after[x];
      forall x, d: Dir | x in S && 0 <= x < |g.cells| && CanStep(g, x, d) ensures Neighbor(g, x, d) in S {
        assert Expanded(g, after, x);
      }
      ClosedUnreachable(g, S, start, end);
    }
  }
}
