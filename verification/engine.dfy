/** The Langermann Tabu Search engine (`tabu_search`): a fixed number of rounds, each
    generating neighbours of the current point, selecting one under the aspiration rule,
    remembering it in a bounded tabu list and updating the best point found so far. */
module Engine {
  import opened Outcomes
  import opened Plane
  import opened TabuMemory
  import opened Selection
  import opened Fifo

  /** The hyper-parameters of `tabu_search` (its defaults are 1000 rounds, 50 neighbours,
      a tabu list of 30 and sigma 0.8). */
  datatype Params = Params(numIterations: int, numNeighbors: int, tabuSize: int, sigma: real)

  /** The loop's variables. `current` is None once a round selected no candidate; its
      value plays `current_value` (None standing for +infinity). The tabu list may hold
      that None too, since `current` is appended whatever it is. */
  datatype State = State(
    initial: Point,
    current: Option<Choice>,
    best: Point,
    bestValue: real,
    tabu: seq<Option<Point>>,
    history: seq<real>)

  /** The dictionary `tabu_search` returns. */
  datatype RunResult = RunResult(best: Point, bestValue: real, history: seq<real>, initialPoint: Point)

  /** The round in which the search raised, and what it raised. */
  datatype Crash = Crash(iteration: nat, cause: TypeError)

  function Position(c: Option<Choice>): Option<Point> {
    if c.Some? then Some(c.value.point) else None
  }

  /** Every pair of history entries is in non-increasing order. */
  predicate NonIncreasing(h: seq<real>) {
    forall i, j :: 0 <= i <= j < |h| ==> h[j] <= h[i]
  }

  /** While the current point is defined, no tabu entry is None, so the tabu test
      (which indexes every entry it scans) is defined. */
  predicate Scannable(s: State) {
    s.current.Some? ==> forall i :: 0 <= i < |s.tabu| ==> s.tabu[i].Some?
  }

  /** The relations between the loop's variables that every round keeps. */
  predicate Consistent(s: State, f: Point -> real) {
    && |s.history| >= 1
    && s.history[|s.history| - 1] == s.bestValue
    && NonIncreasing(s.history)
    && s.bestValue == f(s.best)
    && (s.current.Some? ==> s.current.value.value == f(s.current.value.point) && s.bestValue <= s.current.value.value)
    && |s.tabu| >= 1
    && s.tabu[|s.tabu| - 1] == Position(s.current)
  }

  function Unwrap(tabu: seq<Option<Point>>): (r: seq<Point>)
    requires forall i :: 0 <= i < |tabu| ==> tabu[i].Some?
    ensures |r| == |tabu| && forall i :: 0 <= i < |r| ==> tabu[i] == Some(r[i])
  {
    seq(|tabu|, i requires 0 <= i < |tabu| => tabu[i].value)
  }

  /** The state before the first round, from the uniformly drawn start point. */
  function Init(start: Point, f: Point -> real): (s: State)
    ensures Scannable(s) && Consistent(s, f)
    ensures s.initial == start && s.history == [f(start)] && s.current.Some?
    ensures s.tabu == [Some(start)] && s.best == start
  {
    State(start, Some(Choice(start, f(start))), start, f(start), [Some(start)], [f(start)])
  }

  /** One round of the main loop. It raises exactly when the current point is None and
      at least one neighbour is asked for. */
  function Iterate(s: State, p: Params, f: Point -> real, noise: seq<Draw>): (r: Result<State, TypeError>)
    requires Scannable(s)
    requires p.numNeighbors <= |noise|
    ensures r.Err? <==> 1 <= p.numNeighbors && s.current.None?
    ensures r.Ok? ==> Scannable(r.value)
    ensures r.Ok? ==> r.value.initial == s.initial
    ensures r.Ok? ==> r.value.history == s.history + [r.value.bestValue]
    ensures r.Ok? ==> r.value.bestValue <= s.bestValue
    ensures r.Ok? ==> r.value.tabu == Push(s.tabu, Position(r.value.current), p.tabuSize)
    ensures r.Ok? && 1 <= p.tabuSize && 1 <= |s.tabu| <= p.tabuSize ==> 1 <= |r.value.tabu| <= p.tabuSize
    ensures r.Ok? && r.value.bestValue < s.bestValue ==> r.value.current == Some(Choice(r.value.best, r.value.bestValue))
    ensures r.Ok? && r.value.bestValue == s.bestValue ==> r.value.best == s.best
    ensures r.Ok? && Consistent(s, f) ==> Consistent(r.value, f)
    ensures r.Ok? && InBox(s.best) ==> InBox(r.value.best)
    ensures r.Ok? && p.numNeighbors <= 0 ==> r.value.current.None? && r.value.best == s.best && r.value.bestValue == s.bestValue
  {
    match GenerateNeighbors(Position(s.current), p.numNeighbors, p.sigma, noise)
    case Err(e) => Err(e)
    case Ok(nbs) =>
      // with no neighbours nothing is scanned, not even the tabu list
      var candidate :=
        if |nbs| == 0 then None
        else Select(nbs, f, (q: Point) => IsTabu(q, Unwrap(s.tabu), Tolerance), s.bestValue);
      var improved := candidate.Some? && candidate.value.value < s.bestValue;
      var best := if improved then candidate.value.point else s.best;
      var bestValue := if improved then candidate.value.value else s.bestValue;
      Ok(State(s.initial, candidate, best, bestValue, Push(s.tabu, Position(candidate), p.tabuSize), s.history + [bestValue]))
  }

  /** A round from a defined current point adopts `Select` (the aspiration-rule scan) over
      the neighbours generated around it, tested against the tabu list as it stood before
      the round. In consequence the point becomes None exactly when every neighbour is blocked, an adopted
      point is a neighbour that is free or beats the best, the best improves exactly when
      some neighbour beats it, and a non-improving choice is a least free neighbour. */
  lemma RoundAdoptsSelection(s: State, p: Params, f: Point -> real, noise: seq<Draw>)
    requires Scannable(s) && s.current.Some?
    requires p.numNeighbors <= |noise|
    ensures Iterate(s, p, f, noise).Ok?
    ensures var nbs := GenerateNeighbors(Position(s.current), p.numNeighbors, p.sigma, noise).value;
            var u := Iterate(s, p, f, noise).value;
            var isTabu := (q: Point) => IsTabu(q, Unwrap(s.tabu), Tolerance);
            && (|nbs| > 0 ==> u.current == Select(nbs, f, isTabu, s.bestValue))
            && (u.current.None? <==> forall i :: 0 <= i < |nbs| ==> Blocked(nbs[i], f, isTabu, s.bestValue))
            && (u.current.Some? ==>
                  && u.current.value.point in nbs
                  && u.current.value.value == f(u.current.value.point)
                  && (!IsTabu(u.current.value.point, Unwrap(s.tabu), Tolerance) || u.current.value.value < s.bestValue))
            && (u.bestValue < s.bestValue <==> exists i :: 0 <= i < |nbs| && f(nbs[i]) < s.bestValue)
            && (u.current.Some? && s.bestValue <= u.current.value.value ==>
                  forall i :: 0 <= i < |nbs| && !IsTabu(nbs[i], Unwrap(s.tabu), Tolerance) ==> u.current.value.value <= f(nbs[i]))
  {
    var nbs := GenerateNeighbors(Position(s.current), p.numNeighbors, p.sigma, noise).value;
    var isTabu := (q: Point) => IsTabu(q, Unwrap(s.tabu), Tolerance);
    if |nbs| > 0 {
      NoCandidateIffAllBlocked(nbs, f, isTabu, s.bestValue);
      ImprovesIffSomeNeighbourImproves(nbs, f, isTabu, s.bestValue);
      var sel := Select(nbs, f, isTabu, s.bestValue);
      if sel.Some? && s.bestValue <= sel.value.value {
        NoImprovementMeansFreeMinimum(nbs, f, isTabu, s.bestValue);
      }
    }
  }

  /** The rounds `noise` stands for (one batch of draws per round), run from `s`:
      the last round runs after all the earlier ones. */
  function RunFrom(s: State, p: Params, f: Point -> real, noise: seq<seq<Draw>>): (r: Result<State, Crash>)
    requires Scannable(s)
    requires forall i :: 0 <= i < |noise| ==> p.numNeighbors <= |noise[i]|
    ensures r.Ok? ==> Scannable(r.value) && r.value.initial == s.initial
    ensures r.Ok? ==> |r.value.history| == |s.history| + |noise| && r.value.history[..|s.history|] == s.history
    ensures r.Ok? ==> r.value.bestValue <= s.bestValue
    ensures r.Ok? && Consistent(s, f) ==> Consistent(r.value, f)
    ensures r.Ok? && InBox(s.best) ==> InBox(r.value.best)
    ensures r.Ok? && 1 <= p.tabuSize && 1 <= |s.tabu| <= p.tabuSize ==> 1 <= |r.value.tabu| <= p.tabuSize
    ensures r.Err? ==> 1 <= p.numNeighbors && r.error.iteration < |noise|
    ensures p.numNeighbors <= 0 ==> r.Ok? && r.value.best == s.best && r.value.bestValue == s.bestValue
    decreases |noise|
  {
    if |noise| == 0 then Ok(s)
    else
      var n := |noise| - 1;
      match RunFrom(s, p, f, noise[..n])
      case Err(c) => Err(c)
      case Ok(t) =>
        match Iterate(t, p, f, noise[n])
        case Err(e) => Err(Crash(n, e))
        case Ok(u) => Ok(u)
  }

  function Report(s: State): RunResult {
    RunResult(s.best, s.bestValue, s.history, s.initial)
  }

  function Finish(r: Result<State, Crash>): Result<RunResult, Crash> {
    match r
    case Ok(s) => Ok(Report(s))
    case Err(c) => Err(c)
  }

  /** Once a run has raised, further rounds change nothing. */
  lemma {:induction false} CrashPersists(s: State, p: Params, f: Point -> real, noise: seq<seq<Draw>>, k: nat)
    requires Scannable(s)
    requires forall i :: 0 <= i < |noise| ==> p.numNeighbors <= |noise[i]|
    requires k <= |noise| && RunFrom(s, p, f, noise[..k]).Err?
    ensures RunFrom(s, p, f, noise) == RunFrom(s, p, f, noise[..k])
    decreases |noise| - k
  {
    if k < |noise| {
      var n := |noise| - 1;
      assert noise[..n][..k] == noise[..k];
      CrashPersists(s, p, f, noise[..n], k);
    } else {
      assert noise[..k] == noise;
    }
  }

  /** A run raises only in the round after one that selected no candidate, and only
      when neighbours are asked for. */
  lemma {:induction false} CrashFollowsMissingCandidate(s: State, p: Params, f: Point -> real, noise: seq<seq<Draw>>)
    requires Scannable(s)
    requires forall i :: 0 <= i < |noise| ==> p.numNeighbors <= |noise[i]|
    requires RunFrom(s, p, f, noise).Err?
    ensures var k := RunFrom(s, p, f, noise).error.iteration;
      && 1 <= p.numNeighbors
      && k < |noise|
      && RunFrom(s, p, f, noise[..k]).Ok?
      && RunFrom(s, p, f, noise[..k]).value.current.None?
    decreases |noise|
  {
    var n := |noise| - 1;
    if RunFrom(s, p, f, noise[..n]).Err? {
      CrashFollowsMissingCandidate(s, p, f, noise[..n]);
      var k := RunFrom(s, p, f, noise[..n]).error.iteration;
      assert noise[..n][..k] == noise[..k];
    }
  }

  /** A run raises in round `k` exactly when neighbours are asked for and round `k - 1`
      (or the start) left no current point: a round that selects no candidate makes the
      next one raise, so a run returns normally only if that happens in its final round,
      or never. */
  lemma CrashIffMissingCandidate(s: State, p: Params, f: Point -> real, noise: seq<seq<Draw>>, k: nat)
    requires Scannable(s)
    requires forall i :: 0 <= i < |noise| ==> p.numNeighbors <= |noise[i]|
    requires k < |noise|
    ensures RunFrom(s, p, f, noise) == Err(Crash(k, NoneNotSubscriptable))
        <==> 1 <= p.numNeighbors && RunFrom(s, p, f, noise[..k]).Ok? && RunFrom(s, p, f, noise[..k]).value.current.None?
  {
    var missing := 1 <= p.numNeighbors && RunFrom(s, p, f, noise[..k]).Ok? && RunFrom(s, p, f, noise[..k]).value.current.None?;
    if RunFrom(s, p, f, noise) == Err(Crash(k, NoneNotSubscriptable)) {
      assert missing by {
        CrashFollowsMissingCandidate(s, p, f, noise);
      }
    }
    if missing {
      assert RunFrom(s, p, f, noise) == Err(Crash(k, NoneNotSubscriptable)) by {
        assert noise[..k + 1][..k] == noise[..k];
        CrashPersists(s, p, f, noise, k + 1);
      }
    }
  }

  /** What the rounds run from the initial state produce: a normal return has one
      history entry per round after the start value, falling monotonically to the
      reported best value, which is the objective at the reported best point; a raise
      happens only after the first round and only when neighbours are asked for. */
  lemma {:induction false} Outcome(start: Point, f: Point -> real, p: Params, noise: seq<seq<Draw>>)
    requires forall i :: 0 <= i < |noise| ==> p.numNeighbors <= |noise[i]|
    ensures var r := Finish(RunFrom(Init(start, f), p, f, noise));
      && (r.Ok? ==> |r.value.history| == |noise| + 1)
      && (r.Ok? ==> r.value.history[0] == f(start))
      && (r.Ok? ==> NonIncreasing(r.value.history))
      && (r.Ok? ==> r.value.history[|r.value.history| - 1] == r.value.bestValue)
      && (r.Ok? ==> r.value.bestValue == f(r.value.best) && r.value.bestValue <= f(start))
      && (r.Ok? ==> r.value.initialPoint == start)
      && (r.Ok? && InBox(start) ==> InBox(r.value.best))
      && (p.numNeighbors <= 0 ==> r.Ok? && r.value.best == start)
      && (r.Err? ==> 1 <= p.numNeighbors && 1 <= r.error.iteration < |noise|)
  {
    var s0 := Init(start, f);
    var run := RunFrom(s0, p, f, noise);
    if run.Ok? {
      assert run.value.history[..1] == s0.history;
    } else {
      CrashFollowsMissingCandidate(s0, p, f, noise);
    }
  }

  /** `tabu_search` over the rounds `noise` stands for: the result is that of the rounds
      run in order. */
  method TabuSearch(start: Point, f: Point -> real, p: Params, noise: seq<seq<Draw>>)
    returns (r: Result<RunResult, Crash>)
    requires |noise| == Reps(p.numIterations)
    requires forall i :: 0 <= i < |noise| ==> p.numNeighbors <= |noise[i]|
    ensures r == Finish(RunFrom(Init(start, f), p, f, noise))
    ensures r.Ok? ==> |r.value.history| == Reps(p.numIterations) + 1
    ensures r.Ok? ==> r.value.history[0] == f(start)
    ensures r.Ok? ==> NonIncreasing(r.value.history)
    ensures r.Ok? ==> r.value.history[|r.value.history| - 1] == r.value.bestValue
    ensures r.Ok? ==> r.value.bestValue == f(r.value.best) && r.value.bestValue <= f(start)
    ensures r.Ok? ==> r.value.initialPoint == start
    ensures r.Ok? && InBox(start) ==> InBox(r.value.best)
    ensures p.numNeighbors <= 0 ==> r.Ok? && r.value.best == start
    ensures r.Err? ==> 1 <= p.numNeighbors && 1 <= r.error.iteration < |noise|
  {
    var s := Init(start, f);
    var i := 0;
    while i < |noise|
      invariant 0 <= i <= |noise|
      invariant RunFrom(Init(start, f), p, f, noise[..i]) == Ok(s)
    {
      assert noise[..i + 1][..i] == noise[..i];
      var next := Iterate(s, p, f, noise[i]);
      if next.Err? {
        CrashPersists(Init(start, f), p, f, noise, i + 1);
        r := Err(Crash(i, next.error));
        Outcome(start, f, p, noise);
        return;
      }
      s := next.value;
      i := i + 1;
    }
    assert noise[..i] == noise;
    r := Ok(Report(s));
    Outcome(start, f, p, noise);
  }
}
