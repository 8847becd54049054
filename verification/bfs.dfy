/** `solveBFS`: breadth-first search from the start, a parent tree, the path
    read back from the end, and the events on it marked. */
module BreadthFirst {
  import opened Grid
  import opened Search
  import opened Events

  /** The program's arrays have one entry per cell; `depth` is the proof's
      record of each visited cell's distance from the start. */
  ghost predicate Shape(g: Grid, vis: seq<bool>, parent: seq<int>, depth: seq<nat>)
    requires Wf(g)
  {
    |vis| == |g.cells| && |parent| == |g.cells| && |depth| == |g.cells|
  }

  /** The queue holds distinct visited cells. */
  ghost predicate Queued(g: Grid, vis: seq<bool>, queue: seq<int>)
    requires Wf(g) && |vis| == |g.cells|
  {
    && (forall i :: 0 <= i < |queue| ==> 0 <= queue[i] < |g.cells| && vis[queue[i]])
    && (forall i, j :: 0 <= i < j < |queue| ==> queue[i] != queue[j])
  }

  /** Each visited cell is reached from the start by a walk of its depth. */
  ghost predicate Sound(g: Grid, start: int, vis: seq<bool>, depth: seq<nat>)
    requires Wf(g) && |vis| == |g.cells| && |depth| == |g.cells|
  {
    && 0 <= start < |g.cells| && vis[start] && depth[start] == 0
    && forall v :: 0 <= v < |g.cells| && vis[v] ==> Achieved(g, Unit(|g.cells|), start, v, depth[v])
  }

  /** The first `d` directions of `x` lead to visited cells at most one
      deeper. */
  ghost predicate Reaches(g: Grid, vis: seq<bool>, depth: seq<nat>, x: int, d: nat)
    requires Wf(g) && |vis| == |g.cells| && |depth| == |g.cells| && 0 <= x < |g.cells|
  {
    forall e: Dir :: e < d && CanStep(g, x, e) ==> vis[Neighbor(g, x, e)] && depth[Neighbor(g, x, e)] <= depth[x] + 1
  }

  /** The expanded cells: visited, at their true distance, with every
      neighbour visited. */
  ghost predicate Settled(g: Grid, start: int, vis: seq<bool>, depth: seq<nat>, done: set<int>)
    requires Wf(g) && |vis| == |g.cells| && |depth| == |g.cells|
  {
    forall x :: x in done ==>
      0 <= x < |g.cells| && vis[x] && NoCheaper(g, Unit(|g.cells|), start, x, depth[x]) && Reaches(g, vis, depth, x, 4)
  }

  /** Visited cells not yet expanded wait in the queue, except those in
      `excused`; the queue holds no expanded or excused cell. */
  ghost predicate Pending(vis: seq<bool>, queue: seq<int>, done: set<int>, excused: set<int>) {
    && (forall i :: 0 <= i < |queue| ==> queue[i] !in done && queue[i] !in excused)
    && (forall v :: 0 <= v < |vis| && vis[v] && v !in done && v !in excused ==> v in queue)
  }

  /** The queue is ordered by depth and no shallower than `cur`. */
  ghost predicate Ordered(queue: seq<int>, depth: seq<nat>, cur: nat)
    requires forall i :: 0 <= i < |queue| ==> 0 <= queue[i] < |depth|
  {
    && (forall i, j :: 0 <= i < j < |queue| ==> depth[queue[i]] <= depth[queue[j]])
    && (forall i :: 0 <= i < |queue| ==> cur <= depth[queue[i]])
  }

  /** No visited cell lies deeper than `cur + 1`. */
  ghost predicate Shallow(vis: seq<bool>, depth: seq<nat>, cur: nat)
    requires |vis| == |depth|
  {
    forall v :: 0 <= v < |vis| && vis[v] ==> depth[v] <= cur + 1
  }

  /** Parent links join expanded cells to visited cells one deeper by a
      checked move; every visited cell but the start has one. */
  ghost predicate Tree(g: Grid, start: int, vis: seq<bool>, parent: seq<int>, depth: seq<nat>, done: set<int>, E: set<Edge>)
    requires Wf(g) && Shape(g, vis, parent, depth) && 0 <= start < |g.cells|
  {
    && parent[start] == -1
    && forall v :: 0 <= v < |g.cells| ==>
         && (parent[v] != -1 ==>
               0 <= parent[v] < |g.cells| && parent[v] in done && vis[v] && vis[parent[v]]
               && depth[v] == depth[parent[v]] + 1 && (parent[v], v) in E)
         && (vis[v] && v != start ==> parent[v] != -1)
  }

  /** Every event discovers a new cell by a checked move: `disc` is the set
      of visited cells, one more than the events. */
  ghost predicate Log(g: Grid, start: int, vis: seq<bool>, events: seq<Event>, disc: set<int>, E: set<Edge>)
    requires Wf(g) && |vis| == |g.cells|
  {
    && (forall v :: v in disc <==> 0 <= v < |g.cells| && vis[v])
    && |events| + 1 == |disc|
    && (forall k :: 0 <= k < |events| ==>
          && (events[k].u, events[k].v) in E && !events[k].ok && events[k].cost == 1
          && 0 <= events[k].v < |g.cells| && vis[events[k].v] && events[k].v != start)
    && (forall i, j :: 0 <= i < j < |events| ==> events[i].v != events[j].v)
  }

  /** The part of the state the queue does not touch; `done` is where
      parents live. */
  ghost predicate Core(g: Grid, start: int, vis: seq<bool>, parent: seq<int>, events: seq<Event>,
                       depth: seq<nat>, done: set<int>, disc: set<int>, E: set<Edge>)
    requires Wf(g)
  {
    && 0 <= start < |g.cells| && Shape(g, vis, parent, depth) && Legal(g, E)
    && Sound(g, start, vis, depth)
    && Tree(g, start, vis, parent, depth, done, E) && Log(g, start, vis, events, disc, E)
  }

  /** The loop invariant of the search. */
  ghost predicate Inv(g: Grid, start: int, end: int, vis: seq<bool>, parent: seq<int>, queue: seq<int>, events: seq<Event>,
                      depth: seq<nat>, done: set<int>, cur: nat, disc: set<int>, E: set<Edge>, found: bool)
    requires Wf(g)
  {
    && 0 <= end < |g.cells| && end !in done
    && Core(g, start, vis, parent, events, depth, done, disc, E) && Settled(g, start, vis, depth, done)
    && Queued(g, vis, queue) && Ordered(queue, depth, cur) && Shallow(vis, depth, cur)
    && Pending(vis, queue, done, if found then {end} else {})
    && (found ==> vis[end] && NoCheaper(g, Unit(|g.cells|), start, end, depth[end]))
  }

  /** The first unexpanded cell of a walk from the start lies no deeper than
      its position on the walk. */
  lemma WalkDepth(g: Grid, start: int, vis: seq<bool>, depth: seq<nat>, done: set<int>, p: seq<int>, t: int, i: nat)
    requires Wf(g) && |vis| == |g.cells| && |depth| == |g.cells|
    requires Sound(g, start, vis, depth) && Settled(g, start, vis, depth, done)
    requires WalkFromTo(g, p, start, t) && i < |p| && forall j :: 0 <= j < i ==> p[j] in done
    ensures vis[p[i]] && depth[p[i]] <= i
  {
    if i > 0 {
      var w := Unit(|g.cells|);
      WalkPrefix(g, p, start, t, i - 1);
      UnitCost(w, p[..i]);
      var x := p[i - 1];
      assert NoCheaper(g, w, start, x, depth[x]);
      assert depth[x] <= i - 1;
      var d: Dir :| CanStep(g, x, d) && Neighbor(g, x, d) == p[i];
      assert Reaches(g, vis, depth, x, 4);
    }
  }

  /** The front of the queue is at its true distance: a shorter walk would
      pass through a queued cell shallower than the front. */
  lemma FrontOptimal(g: Grid, start: int, vis: seq<bool>, queue: seq<int>, depth: seq<nat>, done: set<int>, cur: nat)
    requires Wf(g) && |vis| == |g.cells| && |depth| == |g.cells|
    requires Sound(g, start, vis, depth) && Settled(g, start, vis, depth, done)
    requires Queued(g, vis, queue) && Ordered(queue, depth, cur) && Pending(vis, queue, done, {})
    requires |queue| > 0
    ensures NoCheaper(g, Unit(|g.cells|), start, queue[0], depth[queue[0]])
  {
    var w := Unit(|g.cells|);
    var u := queue[0];
    forall p | WalkFromTo(g, p, start, u) ensures depth[u] <= Cost(w, p) {
      UnitCost(w, p);
      if Cost(w, p) < depth[u] {
        var i := FirstOutside(p, done);
        WalkDepth(g, start, vis, depth, done, p, u, i);
        assert false;
      }
    }
  }

  /** Taking the front off the queue keeps every other waiting cell waiting. */
  lemma Pop(g: Grid, vis: seq<bool>, queue: seq<int>, depth: seq<nat>, done: set<int>, cur: nat)
    requires Wf(g) && |vis| == |g.cells| && |depth| == |g.cells|
    requires Queued(g, vis, queue) && Ordered(queue, depth, cur) && Pending(vis, queue, done, {}) && |queue| > 0
    ensures Queued(g, vis, queue[1..]) && Ordered(queue[1..], depth, depth[queue[0]])
    ensures Pending(vis, queue[1..], done, {queue[0]})
    ensures cur <= depth[queue[0]]
  {
    var u := queue[0];
    var q := queue[1..];
    forall v | 0 <= v < |vis| && vis[v] && v !in done && v !in {u} ensures v in q {
      assert v in queue;
      var j :| 0 <= j < |queue| && queue[j] == v;
      assert q[j - 1] == v;
    }
    forall i | 0 <= i < |q| ensures q[i] !in {u} && depth[u] <= depth[q[i]] {
      assert queue[i + 1] != queue[0];
      assert depth[queue[0]] <= depth[queue[i + 1]];
    }
  }

  /** The state while `u` is being expanded, `d` directions in. */
  ghost predicate Expanding(g: Grid, start: int, u: int, vis: seq<bool>, parent: seq<int>, queue: seq<int>,
                            events: seq<Event>, depth: seq<nat>, done: set<int>, disc: set<int>, E: set<Edge>, d: nat)
    requires Wf(g)
  {
    && Core(g, start, vis, parent, events, depth, done + {u}, disc, E) && Settled(g, start, vis, depth, done)
    && 0 <= u < |g.cells| && vis[u] && u !in done && NoCheaper(g, Unit(|g.cells|), start, u, depth[u])
    && Queued(g, vis, queue) && Ordered(queue, depth, depth[u]) && Shallow(vis, depth, depth[u])
    && Pending(vis, queue, done, {u}) && Reaches(g, vis, depth, u, d)
  }

  /** Discovering the traversable, unvisited neighbour `v` of `u`: logged,
      visited, parented, queued one level deeper. Each lemma below carries one
      part of the invariant across the discovery. */
  lemma DiscoverSound(g: Grid, start: int, u: int, v: int, vis: seq<bool>, depth: seq<nat>)
    requires Wf(g) && |vis| == |g.cells| && |depth| == |g.cells| && Sound(g, start, vis, depth)
    requires 0 <= u < |g.cells| && vis[u] && Step(g, u, v) && 0 <= v < |g.cells| && !vis[v]
    ensures Sound(g, start, vis[v := true], depth[v := depth[u] + 1])
  {
    AchievedStep(g, Unit(|g.cells|), start, u, v, depth[u]);
  }

  lemma DiscoverSettled(g: Grid, start: int, v: int, nv: nat, vis: seq<bool>, depth: seq<nat>, done: set<int>)
    requires Wf(g) && |vis| == |g.cells| && |depth| == |g.cells| && Settled(g, start, vis, depth, done)
    requires 0 <= v < |g.cells| && !vis[v]
    ensures Settled(g, start, vis[v := true], depth[v := nv], done)
  {
    forall x | x in done ensures Reaches(g, vis[v := true], depth[v := nv], x, 4) {
      assert x != v;
      assert Reaches(g, vis, depth, x, 4);
    }
  }

  lemma DiscoverTree(g: Grid, start: int, u: int, v: int, vis: seq<bool>, parent: seq<int>, depth: seq<nat>,
                     done: set<int>, E: set<Edge>)
    requires Wf(g) && 0 <= start < |g.cells| && Shape(g, vis, parent, depth) && Tree(g, start, vis, parent, depth, done, E)
    requires 0 <= u < |g.cells| && u in done && vis[u] && vis[start] && 0 <= v < |g.cells| && !vis[v]
    ensures Tree(g, start, vis[v := true], parent[v := u], depth[v := depth[u] + 1], done, E + {(u, v)})
  {
    var vis', parent', depth' := vis[v := true], parent[v := u], depth[v := depth[u] + 1];
    assert v != start && u != v;
    forall x | 0 <= x < |g.cells|
      ensures parent'[x] != -1 ==>
                0 <= parent'[x] < |g.cells| && parent'[x] in done && vis'[x] && vis'[parent'[x]]
                && depth'[x] == depth'[parent'[x]] + 1 && (parent'[x], x) in E + {(u, v)}
      ensures vis'[x] && x != start ==> parent'[x] != -1
    {
      if x != v && parent[x] != -1 {
        assert vis[x] && parent[x] != v;
      }
    }
  }

  lemma DiscoverLog(g: Grid, start: int, u: int, v: int, vis: seq<bool>, events: seq<Event>, disc: set<int>, E: set<Edge>)
    requires Wf(g) && |vis| == |g.cells| && Log(g, start, vis, events, disc, E)
    requires 0 <= start < |g.cells| && vis[start] && 0 <= v < |g.cells| && !vis[v]
    ensures Log(g, start, vis[v := true], PushEvent(events, u, v, false, 1), disc + {v}, E + {(u, v)})
  {
    assert v !in disc;
  }

  lemma DiscoverCore(g: Grid, start: int, u: int, v: int, vis: seq<bool>, parent: seq<int>, events: seq<Event>,
                     depth: seq<nat>, done: set<int>, disc: set<int>, E: set<Edge>)
    requires Wf(g) && Core(g, start, vis, parent, events, depth, done + {u}, disc, E) && Settled(g, start, vis, depth, done)
    requires 0 <= u < |g.cells| && vis[u] && Step(g, u, v) && 0 <= v < |g.cells| && !vis[v]
    ensures Core(g, start, vis[v := true], parent[v := u], PushEvent(events, u, v, false, 1), depth[v := depth[u] + 1],
                 done + {u}, disc + {v}, E + {(u, v)})
  {
    DiscoverSound(g, start, u, v, vis, depth);
    DiscoverTree(g, start, u, v, vis, parent, depth, done + {u}, E);
    DiscoverLog(g, start, u, v, vis, events, disc, E);
    LegalAdd(g, E, u, v);
  }

  lemma DiscoverQueue(g: Grid, u: int, v: int, vis: seq<bool>, queue: seq<int>, depth: seq<nat>, done: set<int>)
    requires Wf(g) && |vis| == |g.cells| && |depth| == |g.cells| && 0 <= u < |g.cells| && 0 <= v < |g.cells| && vis[u] && !vis[v]
    requires Queued(g, vis, queue) && Ordered(queue, depth, depth[u]) && Shallow(vis, depth, depth[u])
    requires Pending(vis, queue, done, {u}) && v !in done
    ensures Queued(g, vis[v := true], queue + [v]) && Ordered(queue + [v], depth[v := depth[u] + 1], depth[u])
    ensures Shallow(vis[v := true], depth[v := depth[u] + 1], depth[u])
    ensures Pending(vis[v := true], queue + [v], done, {u})
  {
    assert v != u;
  }

  lemma ReachesGrow(g: Grid, u: int, v: int, vis: seq<bool>, depth: seq<nat>, d: Dir)
    requires Wf(g) && |vis| == |g.cells| && |depth| == |g.cells| && 0 <= u < |g.cells| && 0 <= v < |g.cells| && v != u
    requires Reaches(g, vis, depth, u, d) && v == Neighbor(g, u, d)
    ensures Reaches(g, vis[v := true], depth[v := depth[u] + 1], u, d + 1)
  {
  }

  /** One discovery carries the whole expansion state one direction on. */
  lemma DiscoverStep(g: Grid, start: int, u: int, d: Dir, v: int, vis: seq<bool>, parent: seq<int>, queue: seq<int>,
                     events: seq<Event>, depth: seq<nat>, done: set<int>, disc: set<int>, E: set<Edge>)
    requires Wf(g) && Expanding(g, start, u, vis, parent, queue, events, depth, done, disc, E, d)
    requires CanStep(g, u, d) && v == Neighbor(g, u, d) && !vis[v]
    ensures Expanding(g, start, u, vis[v := true], parent[v := u], queue + [v], PushEvent(events, u, v, false, 1),
                      depth[v := depth[u] + 1], done, disc + {v}, E + {(u, v)}, d + 1)
  {
    DiscoverCoreStep(g, start, u, d, v, vis, parent, queue, events, depth, done, disc, E);
    DiscoverSettledStep(g, start, u, d, v, vis, parent, queue, events, depth, done, disc, E);
    DiscoverQueueParts(g, start, u, d, v, vis, parent, queue, events, depth, done, disc, E);
    PackExpanding(g, start, u, vis[v := true], parent[v := u], queue + [v], PushEvent(events, u, v, false, 1),
                  depth[v := depth[u] + 1], done, disc + {v}, E + {(u, v)}, d + 1);
  }

  /** The parents, depths, log and discovered cells after one discovery. */
  lemma DiscoverCoreStep(g: Grid, start: int, u: int, d: Dir, v: int, vis: seq<bool>, parent: seq<int>, queue: seq<int>,
                         events: seq<Event>, depth: seq<nat>, done: set<int>, disc: set<int>, E: set<Edge>)
    requires Wf(g) && Expanding(g, start, u, vis, parent, queue, events, depth, done, disc, E, d)
    requires CanStep(g, u, d) && v == Neighbor(g, u, d) && !vis[v]
    ensures Core(g, start, vis[v := true], parent[v := u], PushEvent(events, u, v, false, 1), depth[v := depth[u] + 1],
                 done + {u}, disc + {v}, E + {(u, v)})
  {
    StepByDir(g, u, d);
    DiscoverCore(g, start, u, v, vis, parent, events, depth, done, disc, E);
  }

  /** The expanded cells stay settled after one discovery. */
  lemma DiscoverSettledStep(g: Grid, start: int, u: int, d: Dir, v: int, vis: seq<bool>, parent: seq<int>, queue: seq<int>,
                            events: seq<Event>, depth: seq<nat>, done: set<int>, disc: set<int>, E: set<Edge>)
    requires Wf(g) && Expanding(g, start, u, vis, parent, queue, events, depth, done, disc, E, d)
    requires CanStep(g, u, d) && v == Neighbor(g, u, d) && !vis[v]
    ensures Settled(g, start, vis[v := true], depth[v := depth[u] + 1], done)
  {
    DiscoverSettled(g, start, v, depth[u] + 1, vis, depth, done);
  }

  /** The queue and the directions already looked at after one discovery. */
  lemma DiscoverQueueParts(g: Grid, start: int, u: int, d: Dir, v: int, vis: seq<bool>, parent: seq<int>, queue: seq<int>,
                           events: seq<Event>, depth: seq<nat>, done: set<int>, disc: set<int>, E: set<Edge>)
    requires Wf(g) && Expanding(g, start, u, vis, parent, queue, events, depth, done, disc, E, d)
    requires CanStep(g, u, d) && v == Neighbor(g, u, d) && !vis[v]
    ensures Queued(g, vis[v := true], queue + [v]) && Ordered(queue + [v], depth[v := depth[u] + 1], depth[u])
    ensures Shallow(vis[v := true], depth[v := depth[u] + 1], depth[u])
    ensures Pending(vis[v := true], queue + [v], done, {u})
    ensures Reaches(g, vis[v := true], depth[v := depth[u] + 1], u, d + 1)
  {
    StepByDir(g, u, d);
    NeighborDistinct(g, u, d);
    assert v !in done;
    DiscoverQueue(g, u, v, vis, queue, depth, done);
    ReachesGrow(g, u, v, vis, depth, d);
  }

  lemma PackExpanding(g: Grid, start: int, u: int, vis: seq<bool>, parent: seq<int>, queue: seq<int>,
                      events: seq<Event>, depth: seq<nat>, done: set<int>, disc: set<int>, E: set<Edge>, d: nat)
    requires Wf(g) && Core(g, start, vis, parent, events, depth, done + {u}, disc, E) && Settled(g, start, vis, depth, done)
    requires 0 <= u < |g.cells| && vis[u] && u !in done && NoCheaper(g, Unit(|g.cells|), start, u, depth[u])
    requires Queued(g, vis, queue) && Ordered(queue, depth, depth[u]) && Shallow(vis, depth, depth[u])
    requires Pending(vis, queue, done, {u}) && Reaches(g, vis, depth, u, d)
    ensures Expanding(g, start, u, vis, parent, queue, events, depth, done, disc, E, d)
  {
  }

  /** `expand(u)`: the four directions in the program's order; a traversable,
      unvisited neighbour is logged, visited, given `u` as parent and queued. */
  method Expand(g: Grid, start: int, u: int, vis: seq<bool>, parent: seq<int>, queue: seq<int>, events: seq<Event>,
                ghost depth: seq<nat>, ghost done: set<int>, ghost disc: set<int>, ghost E: set<Edge>)
    returns (vis': seq<bool>, parent': seq<int>, queue': seq<int>, events': seq<Event>,
             ghost depth': seq<nat>, ghost disc': set<int>, ghost E': set<Edge>)
    requires Wf(g) && Expanding(g, start, u, vis, parent, queue, events, depth, done, disc, E, 0)
    ensures Expanding(g, start, u, vis', parent', queue', events', depth', done, disc', E', 4)
    ensures depth'[u] == depth[u]
    ensures queue <= queue' && events <= events'
  {
    vis', parent', queue', events', depth', disc', E' := vis, parent, queue, events, depth, disc, E;
    var d: nat := 0;
    while d < 4
      invariant d <= 4 && Expanding(g, start, u, vis', parent', queue', events', depth', done, disc', E', d)
      invariant depth'[u] == depth[u]
      invariant queue <= queue' && events <= events'
    {
      var v := Neighbor(g, u, d);
      if v < 0 || Wall(g.cells[u], d) || vis'[v] || g.cells[v].blocked {
        assert Reaches(g, vis', depth', u, d + 1) by {
          if CanStep(g, u, d) {
            assert vis'[v];
          }
        }
      } else {
        DiscoverStep(g, start, u, d, v, vis', parent', queue', events', depth', done, disc', E');
        vis', parent', queue', events' := vis'[v := true], parent'[v := u], queue' + [v], PushEvent(events', u, v, false, 1);
        depth', disc', E' := depth'[v := depth'[u] + 1], disc' + {v}, E' + {(u, v)};
      }
      d := d + 1;
    }
  }

  /** After expanding `u` it joins the expanded cells. */
  lemma Settle(g: Grid, start: int, end: int, u: int, vis: seq<bool>, parent: seq<int>, queue: seq<int>,
               events: seq<Event>, depth: seq<nat>, done: set<int>, disc: set<int>, E: set<Edge>)
    requires Wf(g) && Expanding(g, start, u, vis, parent, queue, events, depth, done, disc, E, 4)
    requires 0 <= end < |g.cells| && end !in done && u != end
    ensures Inv(g, start, end, vis, parent, queue, events, depth, done + {u}, depth[u], disc, E, false)
  {
    forall v | 0 <= v < |vis| && vis[v] && v !in done + {u} && v !in {} ensures v in queue {
      assert v !in {u};
    }
  }

  /** The initial state: the start visited and queued. */
  lemma Initial(g: Grid, start: int, end: int, vis: seq<bool>, parent: seq<int>, depth: seq<nat>)
    requires Wf(g) && 0 <= start < |g.cells| && 0 <= end < |g.cells|
    requires vis == seq(|g.cells|, _ => false)[start := true] && parent == seq(|g.cells|, _ => -1)
    requires depth == seq(|g.cells|, _ => 0)
    ensures Inv(g, start, end, vis, parent, [start], [], depth, {}, 0, {start}, {}, false)
  {
    AchievedStart(g, Unit(|g.cells|), start);
  }

  /** One turn of the main loop: the front is taken off the queue; it is
      either the end, or expanded and then counted as done. */
  method Round(g: Grid, start: int, end: int, vis: seq<bool>, parent: seq<int>, queue: seq<int>, events: seq<Event>,
               ghost depth: seq<nat>, ghost done: set<int>, ghost cur: nat, ghost disc: set<int>, ghost E: set<Edge>)
    returns (found: bool, vis': seq<bool>, parent': seq<int>, queue': seq<int>, events': seq<Event>,
             ghost depth': seq<nat>, ghost done': set<int>, ghost cur': nat, ghost disc': set<int>, ghost E': set<Edge>)
    requires Wf(g) && Inv(g, start, end, vis, parent, queue, events, depth, done, cur, disc, E, false) && |queue| > 0
    ensures Inv(g, start, end, vis', parent', queue', events', depth', done', cur', disc', E', found)
    ensures found ==> done' == done
    ensures !found ==> |done'| == |done| + 1
    ensures found <==> queue[0] == end
    ensures found ==> vis' == vis && parent' == parent && events' == events
  {
    var u := queue[0];
    FrontOptimal(g, start, vis, queue, depth, done, cur);
    Pop(g, vis, queue, depth, done, cur);
    queue' := queue[1..];
    cur' := depth[u];
    if u == end {
      found := true;
      vis', parent', events', depth', done', disc', E' := vis, parent, events, depth, done, disc, E;
    } else {
      found := false;
      vis', parent', queue', events', depth', disc', E' := Expand(g, start, u, vis, parent, queue', events, depth, done, disc, E);
      Settle(g, start, end, u, vis', parent', queue', events', depth', done, disc', E');
      done' := done + {u};
    }
  }

  /** Following the parent links adds one move per link. */
  lemma {:induction false} PathDepth(g: Grid, parent: seq<int>, depth: seq<nat>, path: seq<Edge>, n: nat)
    requires |parent| == |g.cells| && |depth| == |g.cells| && n <= |path|
    requires forall v :: 0 <= v < |g.cells| && parent[v] != -1 ==> 0 <= parent[v] < |g.cells| && depth[v] == depth[parent[v]] + 1
    requires forall k :: 0 <= k < |path| ==> 0 <= path[k].1 < |g.cells| && path[k].0 == parent[path[k].1] != -1
    requires forall k :: 0 <= k < |path| - 1 ==> path[k].1 == path[k + 1].0
    ensures n > 0 ==> depth[path[n - 1].1] == depth[path[0].0] + n
  {
    if n > 1 {
      PathDepth(g, parent, depth, path, n - 1);
      assert path[n - 2].1 == path[n - 1].0;
    }
  }

  /** The read-back path is made of checked moves. */
  lemma PathLegal(g: Grid, start: int, vis: seq<bool>, parent: seq<int>, depth: seq<nat>, done: set<int>,
                  E: set<Edge>, end: int, path: seq<Edge>)
    requires Wf(g) && 0 <= start < |g.cells| && 0 <= end < |g.cells| && Shape(g, vis, parent, depth)
    requires Legal(g, E) && Tree(g, start, vis, parent, depth, done, E) && ReadBack(parent, end, path)
    ensures forall k :: 0 <= k < |path| ==> 0 <= path[k].0 < |g.cells| && Step(g, path[k].0, path[k].1)
  {
    forall k | 0 <= k < |path| ensures 0 <= path[k].0 < |g.cells| && Step(g, path[k].0, path[k].1) {
      assert (path[k].0, path[k].1) in E;
    }
  }

  /** A non-empty read-back path starts where the parent links stop: at the
      start, one link per move below the end. */
  lemma PathRoot(g: Grid, start: int, vis: seq<bool>, parent: seq<int>, depth: seq<nat>, done: set<int>,
                 E: set<Edge>, end: int, path: seq<Edge>)
    requires Wf(g) && 0 <= start < |g.cells| && 0 <= end < |g.cells| && Shape(g, vis, parent, depth)
    requires Tree(g, start, vis, parent, depth, done, E) && ReadBack(parent, end, path) && |path| > 0
    ensures path[0].0 == start && depth[end] == depth[start] + |path|
  {
    PathDepth(g, parent, depth, path, |path|);
    assert vis[path[0].1];
  }

  lemma FoundWalk(g: Grid, start: int, end: int, vis: seq<bool>, parent: seq<int>, depth: seq<nat>, done: set<int>,
                  E: set<Edge>, path: seq<Edge>)
    requires Wf(g) && 0 <= start < |g.cells| && 0 <= end < |g.cells| && Shape(g, vis, parent, depth)
    requires Legal(g, E) && Tree(g, start, vis, parent, depth, done, E) && vis[end]
    requires ReadBack(parent, end, path)
    ensures EdgeWalk(g, path, start, end)
    ensures |path| > 0 ==> depth[end] == depth[start] + |path|
  {
    PathLegal(g, start, vis, parent, depth, done, E, end, path);
    if |path| > 0 {
      PathRoot(g, start, vis, parent, depth, done, E, end, path);
    }
  }

  /** When the end was taken from the queue, the path read back from it is
      a shortest walk from the start. */
  lemma FinishFound(g: Grid, start: int, end: int, vis: seq<bool>, parent: seq<int>, depth: seq<nat>, done: set<int>,
                    E: set<Edge>, path: seq<Edge>)
    requires Wf(g) && 0 <= start < |g.cells| && 0 <= end < |g.cells| && Shape(g, vis, parent, depth)
    requires Legal(g, E) && Tree(g, start, vis, parent, depth, done, E) && Sound(g, start, vis, depth)
    requires vis[end] && NoCheaper(g, Unit(|g.cells|), start, end, depth[end])
    requires ReadBack(parent, end, path)
    ensures Reachable(g, start, end)
    ensures |path| > 0 <==> start != end
    ensures EdgeWalk(g, path, start, end) && NoCheaper(g, Unit(|g.cells|), start, end, |path|)
  {
    assert Achieved(g, Unit(|g.cells|), start, end, depth[end]);
    FoundWalk(g, start, end, vis, parent, depth, done, E, path);
  }

  /** With the queue empty and the end never met, the expanded cells are
      closed under moves: the end cannot be reached, and was never visited. */
  lemma ClosedDone(g: Grid, start: int, end: int, vis: seq<bool>, queue: seq<int>, depth: seq<nat>, done: set<int>)
    requires Wf(g) && |vis| == |g.cells| && |depth| == |g.cells| && Sound(g, start, vis, depth)
    requires Settled(g, start, vis, depth, done) && Pending(vis, queue, done, {}) && |queue| == 0
    requires 0 <= end < |g.cells| && end !in done
    ensures !Reachable(g, start, end) && !vis[end]
  {
    forall x, d: Dir | x in done && 0 <= x < |g.cells| && CanStep(g, x, d) ensures Neighbor(g, x, d) in done {
      assert Reaches(g, vis, depth, x, 4);
    }
    assert start in done;
    ClosedUnreachable(g, done, start, end);
  }

  /** The log's moves are traversable discoveries of distinct cells, fewer
      than the cells. */
  lemma LogFacts(g: Grid, start: int, vis: seq<bool>, events: seq<Event>, disc: set<int>, E: set<Edge>)
    requires Wf(g) && |vis| == |g.cells| && Legal(g, E) && Log(g, start, vis, events, disc, E)
    ensures forall k :: 0 <= k < |events| ==>
      0 <= events[k].u < |g.cells| && Step(g, events[k].u, events[k].v) && events[k].cost == 1 && events[k].v != start
    ensures forall k :: 0 <= k < |events| ==> !events[k].ok
    ensures |events| < |g.cells|
  {
    CardRange(disc, |g.cells|);
    forall k | 0 <= k < |events| ensures 0 <= events[k].u < |g.cells| && Step(g, events[k].u, events[k].v) {
      assert (events[k].u, events[k].v) in E;
    }
  }

  /** `solveBFS`. Each event discovers a different cell by a traversable
      move, so there are fewer events than cells. The path is non-empty
      exactly when the end is reachable and differs from the start; it is
      then a walk from start to end with as few moves as any. An event is
      marked exactly when its move is on the path. */
  method SolveBFS(g: Grid, start: int, end: int) returns (events: seq<Event>, path: seq<Edge>)
    requires Wf(g) && 0 <= start < |g.cells| && 0 <= end < |g.cells|
    ensures forall k :: 0 <= k < |events| ==>
      0 <= events[k].u < |g.cells| && Step(g, events[k].u, events[k].v) && events[k].cost == 1 && events[k].v != start
    ensures forall i, j :: 0 <= i < j < |events| ==> events[i].v != events[j].v
    ensures |events| < |g.cells|
    ensures forall k :: 0 <= k < |events| ==> (events[k].ok <==> (events[k].u, events[k].v) in path)
    ensures |path| > 0 <==> Reachable(g, start, end) && start != end
    ensures Reachable(g, start, end) ==> EdgeWalk(g, path, start, end) && NoCheaper(g, Unit(|g.cells|), start, end, |path|)
  {
    var vis := seq(|g.cells|, _ => false)[start := true];
    var parent := seq(|g.cells|, _ => -1);
    var queue := [start];
    var log := [];
    ghost var depth: seq<nat> := seq(|g.cells|, _ => 0);
    ghost var done: set<int> := {};
    ghost var cur: nat := 0;
    ghost var disc: set<int> := {start};
    ghost var E: set<Edge> := {};
    Initial(g, start, end, vis, parent, depth);
    var found := false;
    while |queue| > 0 && !found
      invariant Inv(g, start, end, vis, parent, queue, log, depth, done, cur, disc, E, found)
      decreases |g.cells| - |done|, if found then 0 else 1
    {
      CardRange(done, |g.cells|);
      found, vis, parent, queue, log, depth, done, cur, disc, E := Round(g, start, end, vis, parent, queue, log, depth, done, cur, disc, E);
      CardRange(done, |g.cells|);
    }
    LogFacts(g, start, vis, log, disc, E);
    path := Reconstruct(parent, end, depth);
    if found {
      FinishFound(g, start, end, vis, parent, depth, done, E, path);
    } else {
      ClosedDone(g, start, end, vis, queue, depth, done);
    }
    events := MarkPath(log, path);
  }
}
