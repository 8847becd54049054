/** The playback panel of the modular build: starting a solve, pausing,
    stepping through the event log or draining it against the clock, resetting
    a finished run and clearing the drawing. The clock is an integer tick
    count and the delay between events (`baseDelay / speedMultiplier`) a
    positive number of ticks. */
module Playback {
  import opened Grid
  import opened Search
  import opened Events
  import DepthFirst
  import BreadthFirst
  import Solvers

  /** The solver selector `solveAlgo`. */
  datatype Solver = DFS | BFS | Dijkstra | AStar

  /** `0` selects the depth-first search, `1` BFS, `2` Dijkstra's search and
      anything else A*. */
  function SolverOf(solveAlgo: int): Solver {
    if solveAlgo == 0 then DFS else if solveAlgo == 1 then BFS else if solveAlgo == 2 then Dijkstra else AStar
  }

  /** The buttons of the panel; ImGui reports at most one click a frame. */
  datatype Click = NoClick | PlayClick | PauseClick | StepClick | ResetClick | ClearClick

  /** The cursor stays inside the log, the animation state is 0 (running or
      idle) or 1 (finished), and a finished run has replayed its whole log and
      is no longer solving. */
  ghost predicate Sane(r: Run) {
    && r.eventIndex <= |r.events| && r.animState <= 1
    && (r.animState == 1 ==> !r.solving && r.eventIndex == |r.events|)
  }

  // ---------------------------------------------------------------------
  // Replaying events
  // ---------------------------------------------------------------------

  /** The moves of the events whose flag equals `ok`, in log order. */
  function Flagged(log: seq<Event>, ok: bool): (r: seq<Edge>)
    ensures |r| <= |log|
  {
    if log == [] then [] else Flag(log[0], ok) + Flagged(log[1..], ok)
  }

  /** The move of `e` when its flag equals `ok`, else nothing. */
  function Flag(e: Event, ok: bool): (r: seq<Edge>)
    ensures |r| <= 1 && (r == [(e.u, e.v)] <==> e.ok == ok) && (r == [] <==> e.ok != ok)
  {
    if e.ok == ok then [(e.u, e.v)] else []
  }

  /** A move is split out under `ok` exactly when some event with that flag
      records it. */
  lemma {:induction false} FlaggedMembers(log: seq<Event>, ok: bool, m: Edge)
    ensures m in Flagged(log, ok) <==> exists k :: 0 <= k < |log| && log[k].ok == ok && m == (log[k].u, log[k].v)
    decreases |log|
  {
    if log != [] {
      FlaggedMembers(log[1..], ok, m);
      if m in Flagged(log[1..], ok) {
        var k :| 0 <= k < |log| - 1 && log[1..][k].ok == ok && m == (log[1..][k].u, log[1..][k].v);
        assert log[k + 1] == log[1..][k];
      }
      if exists k :: 0 <= k < |log| && log[k].ok == ok && m == (log[k].u, log[k].v) {
        var k :| 0 <= k < |log| && log[k].ok == ok && m == (log[k].u, log[k].v);
        if k > 0 {
          assert log[1..][k - 1] == log[k];
        }
      }
    }
  }

  /** The next event drawn: an accepted move in the success colour; a
      rejected move in the failure colour, after erasing the newest success
      segment in depth-first mode (a segment is four floats, so the erase
      needs one to be there). */
  function Advance(r: Run, dfs: bool): (s: Run)
    requires r.eventIndex < |r.events|
    ensures s.eventIndex == r.eventIndex + 1 && s.events == r.events && s.path == r.path
    ensures s.solving == r.solving && s.animState == r.animState && s.lastEventTime == r.lastEventTime
    ensures |s.success| + |s.failure| >= |r.success| + |r.failure|
  {
    var e := r.events[r.eventIndex];
    if e.ok then r.(eventIndex := r.eventIndex + 1, success := r.success + [(e.u, e.v)])
    else r.(eventIndex := r.eventIndex + 1, failure := r.failure + [(e.u, e.v)],
            success := if dfs && |r.success| > 0 then r.success[..|r.success| - 1] else r.success)
  }

  /** The next `n` events drawn one after another. */
  function AdvanceN(r: Run, dfs: bool, n: nat): (s: Run)
    requires r.eventIndex + n <= |r.events|
    ensures s.eventIndex == r.eventIndex + n && s.events == r.events && s.path == r.path
    ensures s.solving == r.solving && s.animState == r.animState && s.lastEventTime == r.lastEventTime
    decreases n
  {
    if n == 0 then r else AdvanceN(Advance(r, dfs), dfs, n - 1)
  }

  /** The clock plays no part in drawing. */
  lemma {:induction false} AdvanceIgnoresClock(r: Run, dfs: bool, n: nat, t: int)
    requires r.eventIndex + n <= |r.events|
    ensures AdvanceN(r.(lastEventTime := t), dfs, n) == AdvanceN(r, dfs, n).(lastEventTime := t)
    decreases n
  {
    if n > 0 {
      assert Advance(r.(lastEventTime := t), dfs) == Advance(r, dfs).(lastEventTime := t);
      AdvanceIgnoresClock(Advance(r, dfs), dfs, n - 1, t);
    }
  }

  /** The events `r` has still to draw, from its cursor on. */
  function Ahead(r: Run, n: nat): (log: seq<Event>)
    requires r.eventIndex + n <= |r.events|
    ensures |log| == n
  {
    r.events[r.eventIndex..r.eventIndex + n]
  }

  /** Drawing one event takes it off the front of what is still ahead and
      adds its move to the segments of its colour. */
  lemma AdvanceDraws(r: Run, dfs: bool, n: nat)
    requires r.eventIndex + n <= |r.events| && n > 0
    ensures Ahead(r, n)[0] == r.events[r.eventIndex] && Ahead(r, n)[1..] == Ahead(Advance(r, dfs), n - 1)
    ensures Advance(r, dfs).failure == r.failure + Flag(r.events[r.eventIndex], false)
    ensures !dfs ==> Advance(r, dfs).success == r.success + Flag(r.events[r.eventIndex], true)
  {
  }

  lemma AppendAssoc<T>(a: seq<T>, b: seq<T>, c: seq<T>)
    ensures a + b + c == a + (b + c)
  {
  }

  /** Outside depth-first mode the success segments are the accepted moves
      of the log, in log order. */
  lemma {:induction false} ReplaySuccess(r: Run, n: nat)
    requires r.eventIndex + n <= |r.events|
    ensures AdvanceN(r, false, n).success == r.success + Flagged(Ahead(r, n), true)
    decreases n
  {
    if n > 0 {
      var r1 := Advance(r, false);
      var log := Ahead(r, n);
      ReplaySuccess(r1, n - 1);
      AdvanceDraws(r, false, n);
      assert AdvanceN(r, false, n) == AdvanceN(r1, false, n - 1);
      assert Flagged(log, true) == Flag(log[0], true) + Flagged(log[1..], true);
      AppendAssoc(r.success, Flag(log[0], true), Flagged(log[1..], true));
    }
  }

  /** In every mode the failure segments are the rejected moves of the log,
      in log order. */
  lemma {:induction false} ReplayFailure(r: Run, dfs: bool, n: nat)
    requires r.eventIndex + n <= |r.events|
    ensures AdvanceN(r, dfs, n).failure == r.failure + Flagged(Ahead(r, n), false)
    decreases n
  {
    if n > 0 {
      var r1 := Advance(r, dfs);
      var log := Ahead(r, n);
      ReplayFailure(r1, dfs, n - 1);
      AdvanceDraws(r, dfs, n);
      assert AdvanceN(r, dfs, n) == AdvanceN(r1, dfs, n - 1);
      assert Flagged(log, false) == Flag(log[0], false) + Flagged(log[1..], false);
      AppendAssoc(r.failure, Flag(log[0], false), Flagged(log[1..], false));
    }
  }

  /** In depth-first mode the success segments are the log read as a stack
      of moves, whenever the log retraces cleanly from them: each rejection
      erases exactly the move it takes back. */
  lemma {:induction false} ReplayRetraces(r: Run, n: nat)
    requires r.eventIndex + n <= |r.events| && Retrace(r.success, Ahead(r, n)).Some?
    ensures AdvanceN(r, true, n).success == Retrace(r.success, Ahead(r, n)).value
    decreases n
  {
    if n > 0 {
      var r1 := Advance(r, true);
      AdvanceDraws(r, true, n);
      var log := Ahead(r, n);
      assert Retrace(r.success, log) == Retrace(r1.success, log[1..]);
      ReplayRetraces(r1, n - 1);
    }
  }

  // ---------------------------------------------------------------------
  // Step mode and auto mode
  // ---------------------------------------------------------------------

  /** A run whose cursor has reached the end of the log is finished. */
  function Finish(r: Run): (s: Run)
    requires Sane(r)
    ensures Sane(s) && s.events == r.events && s.eventIndex == r.eventIndex
    ensures s.eventIndex == |s.events| ==> s.animState == 1 && !s.solving
    ensures s.eventIndex < |s.events| ==> s == r
    ensures s == r.(animState := s.animState, solving := s.solving)
  {
    if r.eventIndex >= |r.events| then r.(animState := 1, solving := false) else r
  }

  /** The Step button as written: one event is drawn, and the run finishes
      when that was the last one. The finish test sits inside the test for a
      remaining event, so a run whose log is already used up never
      finishes by stepping. */
  function StepOnce(r: Run, dfs: bool): (s: Run)
    requires Sane(r)
    ensures Sane(s) && s.events == r.events
    ensures r.eventIndex < |r.events| ==> s.eventIndex == r.eventIndex + 1
    ensures r.eventIndex < |r.events| ==> (s.animState == 1 <==> s.eventIndex == |s.events|)
  {
    if r.eventIndex < |r.events| then Finish(Advance(r, dfs)) else r
  }

  /** Stepping a running solve whose log is empty changes nothing: the run
      stays in progress however often the button is pressed while step mode
      stays on. */
  lemma EmptyLogNeverFinishes(r: Run, dfs: bool)
    requires Sane(r) && r.solving && r.events == []
    ensures StepOnce(r, dfs) == r && StepOnce(r, dfs).animState == 0 && StepOnce(r, dfs).solving
  {
  }

  /** The Step button with the finish test applied after every press. */
  function StepOnceFixed(r: Run, dfs: bool): (s: Run)
    requires Sane(r)
    ensures Sane(s) && s.events == r.events
    ensures s.eventIndex == if r.eventIndex < |r.events| then r.eventIndex + 1 else r.eventIndex
    ensures s.animState == 1 <==> s.eventIndex == |s.events|
  {
    Finish(if r.eventIndex < |r.events| then Advance(r, dfs) else r)
  }

  /** With the fix every press draws one event and a run finishes after
      exactly as many presses as its log has events left; an empty log
      finishes on the first press. */
  lemma {:induction false} FixedStepsFinish(r: Run, dfs: bool)
    requires Sane(r) && r.animState == 0
    ensures var s := StepOnceFixed(r, dfs);
      s.animState == 1 <==> |r.events| - r.eventIndex <= 1
  {
  }

  /** How many events the clock lets through: one per full delay since the
      last drawn event, but no more than the log has left. */
  function Due(r: Run, now: int, delay: nat): (n: nat)
    requires delay >= 1 && r.eventIndex <= |r.events|
    ensures n <= |r.events| - r.eventIndex
    ensures r.lastEventTime + n * delay <= now || n == 0
    ensures n == |r.events| - r.eventIndex || now < r.lastEventTime + (n + 1) * delay
  {
    var gap := now - r.lastEventTime;
    if gap < 0 then 0
    else
      var q := gap / delay;
      DivBounds(gap, delay);
      Min(|r.events| - r.eventIndex, q)
  }

  lemma DivBounds(a: nat, d: nat)
    requires d >= 1
    ensures (a / d) * d <= a < (a / d + 1) * d
  {
  }

  /** Cutting one delay from the gap lets one event fewer through. */
  lemma DivSub(a: int, d: int)
    requires d >= 1 && a >= d
    ensures (a - d) / d == a / d - 1
  {
    DivModUnique(a - d, d, a / d - 1, a % d);
  }

  /** Drawing one due event, one delay later, leaves one event fewer due. */
  lemma DueStep(r: Run, r1: Run, now: int, delay: nat)
    requires delay >= 1 && r.eventIndex < |r.events| && now - r.lastEventTime >= delay
    requires r1.events == r.events && r1.eventIndex == r.eventIndex + 1 && r1.lastEventTime == r.lastEventTime + delay
    ensures Due(r, now, delay) >= 1 && Due(r1, now, delay) == Due(r, now, delay) - 1
    ensures r1.lastEventTime + Due(r1, now, delay) * delay == r.lastEventTime + Due(r, now, delay) * delay
  {
    var gap := now - r.lastEventTime;
    DivSub(gap, delay);
    DivBounds(gap, delay);
    var n := Due(r, now, delay);
    assert (n - 1) * delay + delay == n * delay;
  }

  /** The auto-mode loop: while events remain and a full delay has passed
      since the last drawn one, draw the next and move the last-drawn time on
      by one delay. The frame's clock reading is `now`. */
  function Drain(r: Run, dfs: bool, now: int, delay: nat): (s: Run)
    requires r.eventIndex <= |r.events| && delay >= 1
    ensures s.eventIndex == r.eventIndex + Due(r, now, delay)
    ensures s.lastEventTime == r.lastEventTime + Due(r, now, delay) * delay
    ensures s == AdvanceN(r, dfs, Due(r, now, delay)).(lastEventTime := s.lastEventTime)
    decreases |r.events| - r.eventIndex
  {
    if r.eventIndex < |r.events| && now - r.lastEventTime >= delay then
      var r1 := Advance(r, dfs).(lastEventTime := r.lastEventTime + delay);
      var s := Drain(r1, dfs, now, delay);
      DueStep(r, r1, now, delay);
      AdvanceIgnoresClock(Advance(r, dfs), dfs, Due(r1, now, delay), r1.lastEventTime);
      s
    else
      assert Due(r, now, delay) == 0 by {
        if r.eventIndex < |r.events| && now - r.lastEventTime >= 0 {
          DivModUnique(now - r.lastEventTime, delay, 0, now - r.lastEventTime);
        }
      }
      r
  }

  /** After draining, the animation has caught up with the clock: the log is
      used up or less than a delay has passed since the last drawn event. */
  lemma DrainCatchesUp(r: Run, dfs: bool, now: int, delay: nat)
    requires r.eventIndex <= |r.events| && delay >= 1
    ensures var s := Drain(r, dfs, now, delay);
      s.eventIndex == |s.events| || now - s.lastEventTime < delay
  {
  }

  /** The auto-mode branch: drain, then finish once the log is used up. */
  function Animate(r: Run, dfs: bool, now: int, delay: nat): (s: Run)
    requires Sane(r) && delay >= 1
    ensures Sane(s) && s.events == r.events && s.eventIndex >= r.eventIndex
    ensures s.animState == 1 <==> r.animState == 1 || s.eventIndex == |s.events|
    ensures s.eventIndex == |s.events| || now - s.lastEventTime < delay
  {
    DrainCatchesUp(r, dfs, now, delay);
    Finish(Drain(r, dfs, now, delay))
  }

  // ---------------------------------------------------------------------
  // The panel
  // ---------------------------------------------------------------------

  /** Every event in the log is a one-cost move through an open wall into an
      unblocked cell. */
  ghost predicate Moves(g: Grid, r: Run)
    requires Wf(g)
  {
    DepthFirst.Moves(g, r.events)
  }

  /** The Play button: reset the buffers, note the time, run the selected
      solver into the log, and mark the run as solving. The run keeps nothing
      of what was there before. */
  method Play(g: Grid, start: int, end: int, r: Run, solver: Solver, now: int) returns (s: Run)
    requires Wf(g) && 0 <= start < |g.cells| && 0 <= end < |g.cells|
    ensures Sane(s) && Moves(g, s)
    ensures s.solving && s.animState == 0 && s.eventIndex == 0 && s.lastEventTime == now
    ensures s.success == [] && s.failure == []
    ensures solver == DFS ==> s.path == [] && Retrace([], s.events).Some?
    ensures solver == DFS && Reachable(g, start, end) ==> EdgeWalk(g, Retrace([], s.events).value, start, end)
    ensures solver == DFS && !Reachable(g, start, end) ==> Retrace([], s.events) == Some([])
    ensures solver != DFS ==> forall k :: 0 <= k < |s.events| ==> (s.events[k].ok <==> (s.events[k].u, s.events[k].v) in s.path)
    ensures solver != DFS && Reachable(g, start, end) ==> EdgeWalk(g, s.path, start, end)
  {
    var events: seq<Event>, path: seq<Edge> := [], [];
    if solver == DFS {
      var found;
      found, events := DepthFirst.SolveDFS(g, start, end);
    } else if solver == BFS {
      events, path := BreadthFirst.SolveBFS(g, start, end);
    } else if solver == Dijkstra {
      events, path := Solvers.SolveDijkstra(g, start, end);
    } else {
      events, path := Solvers.SolveAStar(g, start, end);
    }
    s := ResetAnimationBuffers(r).(lastEventTime := now, events := events, path := path, solving := true);
  }

  /** One frame of the panel. Exactly one of the three branches is shown,
      chosen by the state at the start of the frame: Play when idle; Pause
      with Step (step mode) or the auto animation (otherwise) while running;
      Reset Run when finished. Clear Visualization is offered whenever the
      run is not solving after that. A pause does not stop this frame's
      animation, and since a paused run is idle, the next Play starts the
      solve afresh. The Step button is `StepOnce` as written, so a run
      whose log is used up stays in progress while step mode stays on.
      Regenerating the maze or scattering obstacles elsewhere in the window
      does not reset the log, so the log need not match the grid; a Play
      click makes it match again. */
  method Frame(g: Grid, start: int, end: int, r: Run, click: Click, stepMode: bool, solver: Solver, now: int, delay: nat)
    returns (s: Run)
    requires Wf(g) && 0 <= start < |g.cells| && 0 <= end < |g.cells| && delay >= 1
    requires Sane(r)
    ensures Sane(s) && (Moves(g, r) ==> Moves(g, s))
    ensures click != PlayClick && click != ResetClick ==> s.events == r.events && s.eventIndex >= r.eventIndex
    ensures r.solving && r.animState == 0 && !stepMode ==> s.eventIndex == |s.events| || now - s.lastEventTime < delay
    ensures r.solving && r.animState == 0 && !stepMode && r.eventIndex == |r.events| ==> s.animState == 1
    ensures r.solving && r.animState == 0 && stepMode && click == StepClick ==>
      s.eventIndex == Min(r.eventIndex + 1, |r.events|) &&
      (r.eventIndex < |r.events| ==> (s.animState == 1 <==> s.eventIndex == |s.events|)) &&
      (r.eventIndex == |r.events| ==> s == r)
    ensures !r.solving && r.animState == 0 && click == PlayClick ==>
      s.solving && s.eventIndex == 0 && s.lastEventTime == now && Moves(g, s)
    ensures !r.solving && r.animState == 1 && click == ResetClick ==> s == ResetAnimationBuffers(r)
    ensures !s.solving && click == ClearClick ==> s.success == [] && s.failure == []
  {
    s := r;
    var dfs := solver == DFS;
    if !r.solving && r.animState == 0 {
      if click == PlayClick {
        s := Play(g, start, end, r, solver, now);
      }
    } else if r.solving && r.animState == 0 {
      if click == PauseClick {
        s := s.(solving := false);
      }
      if stepMode {
        if click == StepClick {
          s := StepOnce(s, dfs);
        }
      } else {
        s := Animate(s, dfs, now, delay);
      }
    } else if !r.solving && r.animState == 1 {
      if click == ResetClick {
        s := ResetAnimationBuffers(s);
      }
    }
    if !s.solving && click == ClearClick {
      s := s.(success := [], failure := []);
    }
  }

  // ---------------------------------------------------------------------
  // A whole run
  // ---------------------------------------------------------------------

  /** A solve played to the end: Play, then every event drawn. In
      depth-first mode the success segments left on screen are the retraced
      walk from start to end, or nothing when the end is out of reach.
      Otherwise every success segment is an edge of the final path and no
      failure segment is. */
  method PlayOut(g: Grid, start: int, end: int, r: Run, solver: Solver, now: int) returns (s: Run)
    requires Wf(g) && 0 <= start < |g.cells| && 0 <= end < |g.cells|
    ensures Sane(s) && s.animState == 1 && s.eventIndex == |s.events|
    ensures solver == DFS && Reachable(g, start, end) ==> EdgeWalk(g, s.success, start, end)
    ensures solver == DFS && !Reachable(g, start, end) ==> s.success == []
    ensures solver != DFS ==> forall k :: 0 <= k < |s.success| ==> s.success[k] in s.path
    ensures solver != DFS ==> forall k :: 0 <= k < |s.failure| ==> s.failure[k] !in s.path
  {
    var p := Play(g, start, end, r, solver, now);
    var n := |p.events|;
    assert Ahead(p, n) == p.events;
    ReplayFailure(p, solver == DFS, n);
    if solver == DFS {
      ReplayRetraces(p, n);
    } else {
      ReplaySuccess(p, n);
      forall m | m in Flagged(p.events, true) ensures m in p.path {
        FlaggedMembers(p.events, true, m);
      }
      forall m | m in Flagged(p.events, false) ensures m !in p.path {
        FlaggedMembers(p.events, false, m);
      }
    }
    s := Finish(AdvanceN(p, solver == DFS, n));
  }
}
