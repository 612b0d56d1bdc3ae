/** The one-dimensional Tabu Search on the Gramacy & Lee function: deterministic
    neighbours one step either side, exact-equality tabu membership with aspiration, and
    an early stop when no neighbour is admissible. */
module LineSearch {
  import opened Outcomes
  import opened Bounds
  import opened Fifo

  /** The script's parameters. */
  const TabuCapacity: nat := 10
  const StepSize: real := 0.05
  const Lo: real := 0.5
  const Hi: real := 2.5

  /** `generar_vecinos(x, paso, limites)`: one step up, then one step down, each clipped
      into the limits. */
  function Neighbours(x: real, step: real, lo: real, hi: real): (r: seq<real>)
    ensures r == [Clip(x + step, lo, hi), Clip(x - step, lo, hi)]
    ensures lo <= hi ==> forall i :: 0 <= i < |r| ==> lo <= r[i] <= hi
  {
    var raw := [x + step, x - step];
    seq(|raw|, i requires 0 <= i < |raw| => Clip(raw[i], lo, hi))
  }

  /** The filter condition: not in the tabu list, or better than the best so far. */
  predicate Passes(v: real, f: real -> real, tabu: seq<real>, bestValue: real) {
    v !in tabu || f(v) < bestValue
  }

  /** `vecinos_validos`: the neighbours that pass the filter. */
  function Admissible(vs: seq<real>, f: real -> real, tabu: seq<real>, bestValue: real): (r: seq<real>)
    ensures |r| <= |vs|
    ensures forall v :: v in r <==> v in vs && Passes(v, f, tabu, bestValue)
    ensures (forall i :: 0 <= i < |vs| ==> Passes(vs[i], f, tabu, bestValue)) ==> r == vs
    decreases |vs|
  {
    if |vs| == 0 then []
    else
      var rest := Admissible(vs[1..], f, tabu, bestValue);
      assert forall v :: v in vs <==> v == vs[0] || v in vs[1..];
      (if Passes(vs[0], f, tabu, bestValue) then [vs[0]] else []) + rest
  }

  /** `k` is where `min(vs, key=f)` lands: a least value, and the first one. */
  predicate IsFirstMin(vs: seq<real>, f: real -> real, k: int) {
    && 0 <= k < |vs|
    && (forall j :: 0 <= j < |vs| ==> f(vs[k]) <= f(vs[j]))
    && (forall j :: 0 <= j < k ==> f(vs[k]) < f(vs[j]))
  }

  /** `min(vs, key=f)` scans left to right and replaces its pick only on a strict
      improvement. */
  function FirstMinIndex(vs: seq<real>, f: real -> real): (k: nat)
    requires |vs| > 0
    ensures k < |vs|
    decreases |vs|
  {
    if |vs| == 1 then 0
    else
      var n := |vs| - 1;
      var k := FirstMinIndex(vs[..n], f);
      if f(vs[n]) < f(vs[k]) then n else k
  }

  /** The scan lands on a least value, and on the first one. */
  lemma {:induction false} FirstMinIndexIsFirstMin(vs: seq<real>, f: real -> real)
    requires |vs| > 0
    ensures IsFirstMin(vs, f, FirstMinIndex(vs, f))
    decreases |vs|
  {
    if |vs| > 1 {
      var n := |vs| - 1;
      FirstMinIndexIsFirstMin(vs[..n], f);
      assert forall j :: 0 <= j < n ==> vs[..n][j] == vs[j];
    }
  }

  /** The script's loop variables (`x_actual`, `mejor_x`, `mejor_valor`, `tabu`,
      `historial`). */
  datatype Walk = Walk(current: real, bestX: real, bestValue: real, tabu: seq<real>, path: seq<real>)

  /** The state before the loop; the tabu list starts empty. */
  function Start(x0: real, f: real -> real): Walk {
    Walk(x0, x0, f(x0), [], [x0])
  }

  /** No neighbour of the current point is admissible. */
  predicate Stuck(w: Walk, f: real -> real) {
    Admissible(Neighbours(w.current, StepSize, Lo, Hi), f, w.tabu, w.bestValue) == []
  }

  /** The neighbour a pass moves to: `min(vecinos_validos, key=f)`, or None when no
      neighbour is admissible. */
  function Choose(w: Walk, f: real -> real): (r: Option<real>)
    ensures r.None? <==> Stuck(w, f)
    ensures r.Some? ==> r.value in Neighbours(w.current, StepSize, Lo, Hi)
    ensures r.Some? ==> Lo <= r.value <= Hi
  {
    var valid := Admissible(Neighbours(w.current, StepSize, Lo, Hi), f, w.tabu, w.bestValue);
    if valid == [] then None
    else
      var k := FirstMinIndex(valid, f);
      assert valid[k] in valid;
      Some(valid[k])
  }

  /** The bookkeeping after a move to `x`: it becomes current, joins the tabu list and
      the path, and replaces the best only when strictly better. */
  function Adopt(w: Walk, x: real, f: real -> real): (u: Walk)
    ensures u.current == x && u.path == w.path + [x]
    ensures u.tabu == Push(w.tabu, x, TabuCapacity)
    ensures u.bestValue <= w.bestValue && u.bestValue <= f(x)
    ensures u.bestValue < w.bestValue ==> u.bestX == x
    ensures u.bestValue == w.bestValue ==> u.bestX == w.bestX
    ensures w.bestValue == f(w.bestX) ==> u.bestValue == f(u.bestX)
  {
    var value := f(x);
    var improved := value < w.bestValue;
    Walk(
      x,
      if improved then x else w.bestX,
      if improved then value else w.bestValue,
      Push(w.tabu, x, TabuCapacity),
      w.path + [x])
  }

  /** One pass of the loop body; None is the `break` taken when no neighbour is
      admissible. */
  function Advance(w: Walk, f: real -> real): (r: Option<Walk>)
    ensures r.None? <==> Stuck(w, f)
    ensures r.Some? ==> |r.value.path| == |w.path| + 1
  {
    match Choose(w, f)
    case None => None
    case Some(x) => Some(Adopt(w, x, f))
  }

  /** A pass adopts the first admissible neighbour of least value. */
  lemma AdvanceAdoptsFirstMinimum(w: Walk, f: real -> real) returns (k: nat)
    requires Choose(w, f).Some?
    ensures var valid := Admissible(Neighbours(w.current, StepSize, Lo, Hi), f, w.tabu, w.bestValue);
      IsFirstMin(valid, f, k) && Choose(w, f).value == valid[k]
  {
    var valid := Admissible(Neighbours(w.current, StepSize, Lo, Hi), f, w.tabu, w.bestValue);
    k := FirstMinIndex(valid, f);
    FirstMinIndexIsFirstMin(valid, f);
  }

  /** When both neighbours are admissible and equally good, the step up is taken. */
  lemma TieGoesToStepUp(w: Walk, f: real -> real)
    requires var nb := Neighbours(w.current, StepSize, Lo, Hi);
      && Passes(nb[0], f, w.tabu, w.bestValue)
      && Passes(nb[1], f, w.tabu, w.bestValue)
      && f(nb[0]) == f(nb[1])
    ensures Choose(w, f) == Some(Clip(w.current + StepSize, Lo, Hi))
  {
  }

  /** Every admissible neighbour is either outside the tabu list or better than the best
      so far, and every neighbour with that property is admissible. */
  lemma AdmissibleMeansAspiring(w: Walk, f: real -> real, v: real)
    ensures v in Admissible(Neighbours(w.current, StepSize, Lo, Hi), f, w.tabu, w.bestValue)
        <==> (v == Clip(w.current + StepSize, Lo, Hi) || v == Clip(w.current - StepSize, Lo, Hi))
             && (v !in w.tabu || f(v) < w.bestValue)
  {
  }

  /** What holds of the loop variables after every pass: the path stays in the limits,
      the best point lies on the path and is its minimum, and the tabu list is the
      newest `TabuCapacity` points adopted after the start. */
  predicate Tracked(w: Walk, x0: real, f: real -> real) {
    && |w.path| >= 1 && w.path[0] == x0 && w.current == w.path[|w.path| - 1]
    && (forall j :: 0 <= j < |w.path| ==> Lo <= w.path[j] <= Hi)
    && w.bestValue == f(w.bestX) && w.bestX in w.path
    && (forall j :: 0 <= j < |w.path| ==> w.bestValue <= f(w.path[j]))
    && w.tabu == Window(w.path[1..], TabuCapacity)
  }

  lemma StartTracked(x0: real, f: real -> real)
    requires Lo <= x0 <= Hi
    ensures Tracked(Start(x0, f), x0, f)
  {
  }

  /** A pass that appends an in-limits point, pushes it onto the tabu list and lowers
      the best only to that point keeps `Tracked`. */
  lemma StepKeepsTracked(w: Walk, u: Walk, x0: real, f: real -> real)
    requires Tracked(w, x0, f)
    requires u.path == w.path + [u.current] && Lo <= u.current <= Hi
    requires u.tabu == Push(w.tabu, u.current, TabuCapacity)
    requires u.bestValue <= w.bestValue && u.bestValue <= f(u.current)
    requires u.bestValue == f(u.bestX)
    requires u.bestX == u.current || u.bestX == w.bestX
    ensures Tracked(u, x0, f)
  {
    PathStep(w.path, u.current, u.path);
    BestStaysOnPath(w.path, u.current, u.path, w.bestX, u.bestX);
    PushExtendsWindow(w.path[1..], u.current, TabuCapacity);
    ExtendBelow(w.path, u.current, u.path, f, w.bestValue, u.bestValue);
  }

  /** The best point stays on the path when it is either the old best or the new point. */
  lemma BestStaysOnPath(path: seq<real>, x: real, path': seq<real>, best: real, best': real)
    requires path' == path + [x] && best in path
    requires best' == x || best' == best
    ensures best' in path'
  {
  }

  lemma PathStep(path: seq<real>, x: real, path': seq<real>)
    requires |path| >= 1 && path' == path + [x]
    ensures path'[1..] == path[1..] + [x]
    ensures forall j :: 0 <= j < |path| ==> path'[j] == path[j]
    ensures path'[0] == path[0] && path'[|path|] == x && |path'| == |path| + 1
  {
  }

  /** Appending an in-limits point no better than a lowered bound keeps the path
      in the limits and above the bound. */
  lemma ExtendBelow(path: seq<real>, x: real, path': seq<real>, f: real -> real, bound: real, bound': real)
    requires path' == path + [x]
    requires forall j :: 0 <= j < |path| ==> Lo <= path[j] <= Hi && bound <= f(path[j])
    requires Lo <= x <= Hi && bound' <= bound && bound' <= f(x)
    ensures forall j :: 0 <= j < |path'| ==> Lo <= path'[j] <= Hi && bound' <= f(path'[j])
  {
  }

  /** A completed pass keeps `Tracked`. */
  lemma AdvanceKeepsTracked(w: Walk, x0: real, f: real -> real)
    requires Tracked(w, x0, f) && Advance(w, f).Some?
    ensures Tracked(Advance(w, f).value, x0, f)
  {
    var x := Choose(w, f).value;
    StepKeepsTracked(w, Adopt(w, x, f), x0, f);
  }

  /** `trace` lists the loop variables after 0, 1, 2, ... passes: each entry is one pass
      of the loop body applied to the one before. */
  predicate Follows(trace: seq<Walk>, f: real -> real) {
    forall k :: 0 <= k < |trace| - 1 ==> Advance(trace[k], f) == Some(trace[k + 1])
  }

  /** Passes are deterministic: two traces from the same start, of the same length, are
      the same trace. */
  lemma FollowsIsUnique(t1: seq<Walk>, t2: seq<Walk>, f: real -> real)
    requires |t1| == |t2| >= 1 && t1[0] == t2[0]
    requires Follows(t1, f) && Follows(t2, f)
    ensures t1 == t2
  {
    forall k | 0 <= k < |t1|
      ensures t1[k] == t2[k]
    {
      SameEntry(t1, t2, f, k);
    }
  }

  lemma {:induction false} SameEntry(t1: seq<Walk>, t2: seq<Walk>, f: real -> real, k: nat)
    requires |t1| == |t2| >= 1 && t1[0] == t2[0]
    requires Follows(t1, f) && Follows(t2, f)
    requires k < |t1|
    ensures t1[k] == t2[k]
  {
    if k > 0 {
      SameEntry(t1, t2, f, k - 1);
      assert Advance(t1[k - 1], f) == Some(t1[k]);
      assert Advance(t2[k - 1], f) == Some(t2[k]);
    }
  }

  /** Appending the result of one more pass keeps a trace a trace. */
  lemma FollowsExtend(trace: seq<Walk>, u: Walk, f: real -> real)
    requires |trace| >= 1 && Follows(trace, f)
    requires Advance(trace[|trace| - 1], f) == Some(u)
    ensures Follows(trace + [u], f)
  {
    var t := trace + [u];
    forall k | 0 <= k < |t| - 1
      ensures Advance(t[k], f) == Some(t[k + 1])
    {
      if k < |trace| - 1 {
        assert t[k] == trace[k] && t[k + 1] == trace[k + 1];
        assert Advance(trace[k], f) == Some(trace[k + 1]);
      } else {
        assert t[k] == trace[|trace| - 1] && t[k + 1] == u;
      }
    }
  }

  /** `mejor_valor` never rises along the loop. */
  lemma {:induction false} BestNeverRises(trace: seq<Walk>, f: real -> real, i: nat, j: nat)
    requires Follows(trace, f) && i <= j < |trace|
    ensures trace[j].bestValue <= trace[i].bestValue
    decreases j - i
  {
    if i < j {
      BestNeverRises(trace, f, i, j - 1);
      assert Advance(trace[j - 1], f) == Some(trace[j]);
    }
  }

  /** The script's search from the uniformly drawn start `x0`, with at most `maxIter`
      passes (the script runs 100). `trace` holds the loop variables after every
      completed pass; `w` is the last of them. */
  method Search(x0: real, f: real -> real, maxIter: nat) returns (w: Walk, stoppedEarly: bool, trace: seq<Walk>)
    requires Lo <= x0 <= Hi
    ensures 1 <= |trace| <= maxIter + 1 && trace[0] == Start(x0, f) && Follows(trace, f)
    ensures w == trace[|trace| - 1]
    ensures stoppedEarly <==> |trace| <= maxIter
    ensures stoppedEarly ==> Stuck(w, f)
    ensures |w.path| == |trace| && w.path[0] == x0 && w.current == w.path[|w.path| - 1]
    ensures forall i :: 0 <= i < |w.path| ==> Lo <= w.path[i] <= Hi
    ensures w.bestValue == f(w.bestX) && w.bestX in w.path
    ensures forall i :: 0 <= i < |w.path| ==> w.bestValue <= f(w.path[i])
    ensures w.tabu == Window(w.path[1..], TabuCapacity)
    ensures |w.tabu| <= TabuCapacity && (|w.path| == 1 <==> w.tabu == [])
    ensures |w.path| > 1 ==> w.tabu[|w.tabu| - 1] == w.current
  {
    StartTracked(x0, f);
    w := Start(x0, f);
    stoppedEarly := false;
    trace := [w];
    var i := 0;
    while i < maxIter && !stoppedEarly
      invariant 0 <= i <= maxIter
      invariant |trace| == i + 1 && trace[0] == Start(x0, f) && Follows(trace, f)
      invariant w == trace[i]
      invariant |w.path| == i + 1 && Tracked(w, x0, f)
      invariant stoppedEarly ==> i < maxIter && Stuck(w, f)
      decreases maxIter - i, if stoppedEarly then 0 else 1
    {
      var next := Advance(w, f);
      if next.None? {
        stoppedEarly := true;
      } else {
        AdvanceKeepsTracked(w, x0, f);
        FollowsExtend(trace, next.value, f);
        w := next.value;
        trace := trace + [w];
        i := i + 1;
      }
    }
    WindowEnds(w.path[1..], TabuCapacity);
  }
}
