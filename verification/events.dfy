/** The event log the solvers fill and the playback replays, the animation
    buffers around it, and the two steps every parent-tree solver ends with:
    reading the path back from the parent links and marking the events on it. */
module Events {
  import opened Search

  datatype Option<T> = None | Some(value: T)

  /** One solver event: the move from `u` to `v`, whether it is drawn as part
      of the answer, and the cost of entering `v`. */
  datatype Event = Event(u: int, v: int, ok: bool, cost: nat)

  /** The animation buffers: the run flags, the log and its cursor, the final
      path, and the drawn success and failure segments (each segment is the
      move it joins; the program stores the centres of its two cells). */
  datatype Run = Run(
    solving: bool,
    animState: nat,
    events: seq<Event>,
    path: seq<Edge>,
    success: seq<Edge>,
    failure: seq<Edge>,
    eventIndex: nat,
    lastEventTime: int)

  /** `resetAnimationBuffers`. */
  function ResetAnimationBuffers(r: Run): (s: Run)
    ensures !s.solving && s.animState == 0 && s.eventIndex == 0
    ensures s.events == [] && s.path == [] && s.success == [] && s.failure == []
    ensures s.lastEventTime == r.lastEventTime
  {
    r.(solving := false, events := [], path := [], success := [], failure := [], eventIndex := 0, animState := 0)
  }

  /** Resetting forgets everything but the clock: two runs reset to the same
      buffers, and resetting twice is resetting once. */
  lemma ResetForgets(a: Run, b: Run)
    requires a.lastEventTime == b.lastEventTime
    ensures ResetAnimationBuffers(a) == ResetAnimationBuffers(b)
    ensures ResetAnimationBuffers(ResetAnimationBuffers(a)) == ResetAnimationBuffers(a)
  {
  }

  /** `pushEvent`: one event at the end, the earlier ones untouched. */
  function PushEvent(log: seq<Event>, u: int, v: int, ok: bool, cost: nat): (r: seq<Event>)
    ensures |r| == |log| + 1 && r[..|log|] == log && r[|log|] == Event(u, v, ok, cost)
  {
    log + [Event(u, v, ok, cost)]
  }

  /** A log read as a stack of moves: an accepted event pushes its move; a
      rejected event retracts the move on top, which must be its own. `None`
      when a retraction finds another move, or none, on top. */
  function Retrace(stack: seq<Edge>, log: seq<Event>): Option<seq<Edge>>
    decreases |log|
  {
    if log == [] then Some(stack)
    else if log[0].ok then Retrace(stack + [(log[0].u, log[0].v)], log[1..])
    else if |stack| > 0 && stack[|stack| - 1] == (log[0].u, log[0].v) then Retrace(stack[..|stack| - 1], log[1..])
    else None
  }

  /** Retracing two logs one after the other. */
  lemma {:induction false} RetraceAppend(stack: seq<Edge>, a: seq<Event>, b: seq<Event>)
    ensures Retrace(stack, a + b) == match Retrace(stack, a) case None => None case Some(t) => Retrace(t, b)
    decreases |a|
  {
    if a != [] {
      assert (a + b)[0] == a[0] && (a + b)[1..] == a[1..] + b;
      if a[0].ok {
        RetraceAppend(stack + [(a[0].u, a[0].v)], a[1..], b);
      } else if |stack| > 0 && stack[|stack| - 1] == (a[0].u, a[0].v) {
        RetraceAppend(stack[..|stack| - 1], a[1..], b);
      }
    } else {
      assert a + b == b;
    }
  }

  /** A log that retraces cleanly never looks below the stack it starts on. */
  lemma {:induction false} RetraceFrame(base: seq<Edge>, stack: seq<Edge>, log: seq<Event>)
    requires Retrace(stack, log).Some?
    ensures Retrace(base + stack, log) == Some(base + Retrace(stack, log).value)
    decreases |log|
  {
    if log != [] {
      if log[0].ok {
        assert base + stack + [(log[0].u, log[0].v)] == base + (stack + [(log[0].u, log[0].v)]);
        RetraceFrame(base, stack + [(log[0].u, log[0].v)], log[1..]);
      } else {
        assert (base + stack)[..|base + stack| - 1] == base + stack[..|stack| - 1];
        RetraceFrame(base, stack[..|stack| - 1], log[1..]);
      }
    }
  }

  /** The retroactive marking: an event becomes accepted when its move is an
      edge of the final path; nothing else about any event changes. */
  function MarkPath(log: seq<Event>, path: seq<Edge>): (r: seq<Event>)
    ensures |r| == |log|
    ensures forall k :: 0 <= k < |r| ==> r[k].u == log[k].u && r[k].v == log[k].v && r[k].cost == log[k].cost
    ensures forall k :: 0 <= k < |r| ==> r[k].ok == (log[k].ok || (log[k].u, log[k].v) in path)
  {
    seq(|log|, k requires 0 <= k < |log| => if (log[k].u, log[k].v) in path then log[k].(ok := true) else log[k])
  }

  /** Marking never clears a flag, and marking twice is marking once. */
  lemma MarkPathMonotone(log: seq<Event>, path: seq<Edge>)
    ensures forall k :: 0 <= k < |log| && log[k].ok ==> MarkPath(log, path)[k].ok
    ensures MarkPath(MarkPath(log, path), path) == MarkPath(log, path)
  {
  }

  function Reverse<T>(xs: seq<T>): (r: seq<T>)
    ensures |r| == |xs| && forall k :: 0 <= k < |xs| ==> r[k] == xs[|xs| - 1 - k]
  {
    seq(|xs|, k requires 0 <= k < |xs| => xs[|xs| - 1 - k])
  }

  /** Every parent link points at a cell of strictly smaller rank, so
      following the links always stops. */
  ghost predicate Ranked(parent: seq<int>, rank: seq<nat>) {
    && |rank| == |parent|
    && forall v :: 0 <= v < |parent| && parent[v] != -1 ==> 0 <= parent[v] < |parent| && rank[parent[v]] < rank[v]
  }

  /** What `reconstructPath` returns, as `Reconstruct` states it. */
  ghost predicate ReadBack(parent: seq<int>, end: int, path: seq<Edge>)
    requires 0 <= end < |parent|
  {
    && (|path| == 0 <==> parent[end] == -1)
    && (|path| > 0 ==> path[|path| - 1].1 == end && 0 <= path[0].0 < |parent| && parent[path[0].0] == -1)
    && (forall k :: 0 <= k < |path| ==> 0 <= path[k].1 < |parent| && path[k].0 == parent[path[k].1] != -1)
    && (forall k :: 0 <= k < |path| - 1 ==> path[k].1 == path[k + 1].0)
  }

  /** The path read back from `end` along the parent links until a cell
      without a parent, collected backwards and then reversed. `rank` only
      witnesses that the links lead somewhere. */
  method Reconstruct(parent: seq<int>, end: int, ghost rank: seq<nat>) returns (path: seq<Edge>)
    requires Ranked(parent, rank) && 0 <= end < |parent|
    ensures |path| == 0 <==> parent[end] == -1
    ensures |path| > 0 ==> path[|path| - 1].1 == end && 0 <= path[0].0 < |parent| && parent[path[0].0] == -1
    ensures forall k :: 0 <= k < |path| ==> 0 <= path[k].1 < |parent| && path[k].0 == parent[path[k].1] != -1
    ensures forall k :: 0 <= k < |path| - 1 ==> path[k].1 == path[k + 1].0
  {
    var back: seq<Edge> := [];
    var cur := end;
    while cur != -1 && parent[cur] != -1
      invariant 0 <= cur < |parent|
      invariant |back| == 0 ==> cur == end
      invariant |back| > 0 ==> back[0].1 == end && back[|back| - 1].0 == cur
      invariant forall k :: 0 <= k < |back| ==> 0 <= back[k].1 < |parent| && back[k].0 == parent[back[k].1] != -1
      invariant forall k :: 0 <= k < |back| - 1 ==> back[k].0 == back[k + 1].1
      decreases rank[cur]
    {
      back := back + [(parent[cur], cur)];
      cur := parent[cur];
    }
    path := Reverse(back);
  }
}
