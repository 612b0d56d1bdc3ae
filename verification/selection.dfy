/** One round of candidate selection in the Langermann Tabu Search: scan the
    neighbours in generation order, keeping a single running candidate. */
module Selection {
  import opened Outcomes
  import opened Plane
  import opened TabuMemory

  /** The running candidate and its objective value (`candidate`, `candidate_value`). */
  datatype Choice = Choice(point: Point, value: real)

  /** A neighbour that can never be taken: tabu, and no better than the global best. */
  predicate Blocked(nb: Point, f: Point -> real, isTabu: Point -> bool, bestValue: real) {
    isTabu(nb) && bestValue <= f(nb)
  }

  /** One scan step. A tabu neighbour replaces the running candidate only when it
      beats the global best (aspiration); any other neighbour replaces it when it beats
      the running candidate's value, which is +infinity while there is none. */
  function Consider(sel: Option<Choice>, nb: Point, value: real, tabuHit: bool, bestValue: real)
    : Option<Choice>
  {
    if tabuHit then
      if value < bestValue then Some(Choice(nb, value)) else sel
    else if sel.None? || value < sel.value.value then Some(Choice(nb, value))
    else sel
  }

  /** The candidate left after scanning all of `nbs` (None when nothing was taken).
      `isTabu` is the tabu test against the current tabu list (`is_tabu` with the
      default tolerance, in the engine). */
  function Select(nbs: seq<Point>, f: Point -> real, isTabu: Point -> bool, bestValue: real)
    : (r: Option<Choice>)
    ensures r.Some? ==> r.value.point in nbs && r.value.value == f(r.value.point)
    ensures r.Some? ==> !isTabu(r.value.point) || r.value.value < bestValue
    decreases |nbs|
  {
    if |nbs| == 0 then None
    else
      var nb := nbs[|nbs| - 1];
      var sel := Select(nbs[..|nbs| - 1], f, isTabu, bestValue);
      assert sel.Some? ==> sel.value.point in nbs;
      Consider(sel, nb, f(nb), isTabu(nb), bestValue)
  }

  /** No candidate is selected exactly when every neighbour is blocked (vacuously so
      when there are no neighbours). */
  lemma {:induction false} NoCandidateIffAllBlocked(nbs: seq<Point>, f: Point -> real, isTabu: Point -> bool, bestValue: real)
    ensures Select(nbs, f, isTabu, bestValue).None?
        <==> forall i :: 0 <= i < |nbs| ==> Blocked(nbs[i], f, isTabu, bestValue)
    decreases |nbs|
  {
    if |nbs| > 0 {
      var init := nbs[..|nbs| - 1];
      NoCandidateIffAllBlocked(init, f, isTabu, bestValue);
      assert forall i :: 0 <= i < |init| ==> init[i] == nbs[i];
    }
  }

  /** The selected candidate beats the global best exactly when some neighbour does:
      once the running value is below the best it never climbs back above it. */
  lemma {:induction false} ImprovesIffSomeNeighbourImproves(nbs: seq<Point>, f: Point -> real, isTabu: Point -> bool, bestValue: real)
    ensures (Select(nbs, f, isTabu, bestValue).Some? && Select(nbs, f, isTabu, bestValue).value.value < bestValue)
        <==> exists i :: 0 <= i < |nbs| && f(nbs[i]) < bestValue
    decreases |nbs|
  {
    if |nbs| > 0 {
      var init := nbs[..|nbs| - 1];
      ImprovesIffSomeNeighbourImproves(init, f, isTabu, bestValue);
      assert forall i :: 0 <= i < |init| ==> init[i] == nbs[i];
      if exists i :: 0 <= i < |nbs| && f(nbs[i]) < bestValue {
        var i :| 0 <= i < |nbs| && f(nbs[i]) < bestValue;
        if i < |init| {
          assert f(init[i]) < bestValue;
        }
      }
    }
  }

  /** `k` is the first non-tabu neighbour of least value among the non-tabu ones. */
  predicate FirstFreeMinimum(nbs: seq<Point>, f: Point -> real, isTabu: Point -> bool, k: int) {
    && 0 <= k < |nbs|
    && !isTabu(nbs[k])
    && (forall j :: 0 <= j < |nbs| && !isTabu(nbs[j]) ==> f(nbs[k]) <= f(nbs[j]))
    && (forall j :: 0 <= j < k && !isTabu(nbs[j]) ==> f(nbs[k]) < f(nbs[j]))
  }

  /** When no tabu neighbour earns aspiration, a candidate is selected exactly when
      some neighbour is not tabu. */
  lemma CandidateIffSomeFree(nbs: seq<Point>, f: Point -> real, isTabu: Point -> bool, bestValue: real)
    requires forall i :: 0 <= i < |nbs| && isTabu(nbs[i]) ==> bestValue <= f(nbs[i])
    ensures Select(nbs, f, isTabu, bestValue).Some?
        <==> exists i :: 0 <= i < |nbs| && !isTabu(nbs[i])
  {
  }

  /** When no tabu neighbour earns aspiration, the selection is the first non-tabu
      neighbour of minimum value: replacement needs a strict improvement, so ties keep
      the earlier neighbour. */
  lemma {:induction false} FirstFreeMinimumWithoutAspiration(nbs: seq<Point>, f: Point -> real, isTabu: Point -> bool, bestValue: real)
    returns (k: int)
    requires forall i :: 0 <= i < |nbs| && isTabu(nbs[i]) ==> bestValue <= f(nbs[i])
    requires Select(nbs, f, isTabu, bestValue).Some?
    ensures FirstFreeMinimum(nbs, f, isTabu, k)
    ensures Select(nbs, f, isTabu, bestValue) == Some(Choice(nbs[k], f(nbs[k])))
    decreases |nbs|
  {
    var n := |nbs| - 1;
    var init := nbs[..n];
    assert forall i :: 0 <= i < |init| ==> init[i] == nbs[i];
    var sel := Select(init, f, isTabu, bestValue);
    var nb := nbs[n];
    CandidateIffSomeFree(init, f, isTabu, bestValue);
    if sel.None? {
      // no earlier neighbour is free, so the last one is the only free one
      assert !isTabu(nb);
      k := n;
    } else {
      var k0 := FirstFreeMinimumWithoutAspiration(init, f, isTabu, bestValue);
      if !isTabu(nb) && f(nb) < sel.value.value {
        k := n;
      } else {
        k := k0;
      }
    }
  }

  /** A selection that does not beat the global best is no worse than any non-tabu
      neighbour: without an improvement no tabu neighbour was ever taken, so the scan
      was a plain minimum over the non-tabu ones. */
  lemma NoImprovementMeansFreeMinimum(nbs: seq<Point>, f: Point -> real, isTabu: Point -> bool, bestValue: real)
    requires Select(nbs, f, isTabu, bestValue).Some?
    requires bestValue <= Select(nbs, f, isTabu, bestValue).value.value
    ensures forall i :: 0 <= i < |nbs| && !isTabu(nbs[i]) ==> Select(nbs, f, isTabu, bestValue).value.value <= f(nbs[i])
  {
    ImprovesIffSomeNeighbourImproves(nbs, f, isTabu, bestValue);
    var k := FirstFreeMinimumWithoutAspiration(nbs, f, isTabu, bestValue);
  }

  /** The aspiration scenario: if exactly one neighbour beats the global best, that
      neighbour is selected, tabu or not. */
  lemma SoleImproverIsSelected(nbs: seq<Point>, f: Point -> real, isTabu: Point -> bool, bestValue: real, i: int)
    requires 0 <= i < |nbs| && f(nbs[i]) < bestValue
    requires forall j :: 0 <= j < |nbs| && j != i ==> bestValue <= f(nbs[j])
    ensures Select(nbs, f, isTabu, bestValue) == Some(Choice(nbs[i], f(nbs[i])))
  {
  }

  /** The asymmetry of the rule for all inputs: a tabu neighbour that earns aspiration is
      taken whatever the running candidate is, so the scan restarts there and everything
      before it (a better free candidate, an earlier and better aspirant) is forgotten. */
  lemma {:induction false} AspirantResetsScan(nbs: seq<Point>, f: Point -> real, isTabu: Point -> bool, bestValue: real, j: int)
    requires 0 <= j < |nbs| && isTabu(nbs[j]) && f(nbs[j]) < bestValue
    ensures Select(nbs, f, isTabu, bestValue) == Select(nbs[j..], f, isTabu, bestValue)
    decreases |nbs|
  {
    var n := |nbs| - 1;
    if j == n {
      assert nbs[j..][..0] == [];
    } else {
      AspirantResetsScan(nbs[..n], f, isTabu, bestValue, j);
      assert nbs[..n][j..] == nbs[j..][..|nbs[j..]| - 1];
      assert nbs[j..][|nbs[j..]| - 1] == nbs[n];
    }
  }

  /** After a first neighbour taken by aspiration, with no later aspirant, a later
      non-tabu neighbour still competes with the aspirant's value: the aspirant stays
      only while nothing after it is strictly better. */
  lemma {:induction false} AspirantMeetsLaterFree(nbs: seq<Point>, f: Point -> real, isTabu: Point -> bool, bestValue: real)
    requires |nbs| > 0 && isTabu(nbs[0]) && f(nbs[0]) < bestValue
    requires forall i :: 1 <= i < |nbs| && isTabu(nbs[i]) ==> bestValue <= f(nbs[i])
    ensures var rest := Select(nbs[1..], f, isTabu, bestValue);
      Select(nbs, f, isTabu, bestValue)
        == if rest.Some? && rest.value.value < f(nbs[0]) then rest else Some(Choice(nbs[0], f(nbs[0])))
    decreases |nbs|
  {
    var n := |nbs| - 1;
    if n == 0 {
      assert nbs[..0] == [];
      assert nbs[1..] == [];
    } else {
      var init := nbs[..n];
      assert init[0] == nbs[0];
      assert forall i :: 1 <= i < |init| ==> init[i] == nbs[i];
      AspirantMeetsLaterFree(init, f, isTabu, bestValue);
      assert init[1..] == nbs[1..][..|nbs[1..]| - 1];
      assert nbs[1..][|nbs[1..]| - 1] == nbs[n];
    }
  }

  /** The asymmetry of the rule: a later tabu neighbour that earns aspiration displaces
      an earlier non-tabu candidate even when that candidate was better. */
  lemma LaterTabuDisplacesBetterFreeCandidate()
    ensures var a, b := Point(1.0, 1.0), Point(2.0, 2.0);
      var f := (p: Point) => p.x;
      var isTabu := (p: Point) => IsTabu(p, [b], Tolerance);
      && f(a) < f(b)
      && !isTabu(a) && isTabu(b)
      && Select([a, b], f, isTabu, 3.0) == Some(Choice(b, 2.0))
  {
  }
}
