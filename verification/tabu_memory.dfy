/** The proximity test of the Langermann Tabu Search: a point is tabu when it lies
    strictly closer than the tolerance to some remembered point. */
module TabuMemory {
  import opened Plane

  /** The default similarity radius of `is_tabu`. */
  const Tolerance: real := 0.01

  /** `sqrt(dx^2 + dy^2) < tol`, stated without the square root. */
  predicate Near(p: Point, q: Point, tol: real) {
    0.0 < tol && SqDist(p, q) < tol * tol
  }

  /** For a non-negative root `dist` of `d`, `dist < tol` is the squared test. */
  lemma SquaredTest(dist: real, d: real, tol: real)
    requires 0.0 <= dist && dist * dist == d
    ensures dist < tol <==> 0.0 < tol && d < tol * tol
  {
    if dist < tol {
      RootBelow(dist, tol);
    } else {
      RootAbove(dist, tol);
    }
  }

  lemma RootBelow(dist: real, tol: real)
    requires 0.0 <= dist < tol
    ensures 0.0 < tol && dist * dist < tol * tol
  {
    calc {
      dist * dist;
    <= { MulMono(dist, dist, tol); }
      dist * tol;
    < { MulMonoStrict(tol, dist, tol); }
      tol * tol;
    }
  }

  lemma RootAbove(dist: real, tol: real)
    requires 0.0 <= dist && tol <= dist
    ensures tol <= 0.0 || tol * tol <= dist * dist
  {
  }

  /** 0 <= c && a <= b ==> c * a <= c * b. */
  lemma MulMono(c: real, a: real, b: real)
    requires 0.0 <= c && a <= b
    ensures c * a <= c * b
  {
  }

  /** 0 < c && a <= b ==> a * c <= b * c, and strictly when a < b. */
  lemma MulMonoStrict(c: real, a: real, b: real)
    requires 0.0 < c && a <= b
    ensures a * c <= b * c
    ensures a < b ==> a * c < b * c
  {
  }

  /** `Near` is the source's Euclidean-distance test whatever root of the squared
      distance `math.sqrt` returns, as long as it is the non-negative one. */
  lemma NearIsEuclidean(p: Point, q: Point, tol: real, dist: real)
    requires 0.0 <= dist && dist * dist == SqDist(p, q)
    ensures Near(p, q, tol) <==> dist < tol
  {
    SquaredTest(dist, SqDist(p, q), tol);
  }

  /** `is_tabu(position, tabu_list, tol)`: scan the list front to back and stop at the
      first entry that is near. */
  function IsTabu(p: Point, tabu: seq<Point>, tol: real): (r: bool)
    ensures r <==> exists i :: 0 <= i < |tabu| && Near(p, tabu[i], tol)
    ensures |tabu| == 0 ==> !r
    decreases |tabu|
  {
    if |tabu| == 0 then false
    else if Near(p, tabu[0], tol) then true
    else
      var rest := IsTabu(p, tabu[1..], tol);
      assert forall i :: 0 <= i < |tabu| - 1 ==> tabu[1..][i] == tabu[i + 1];
      rest
  }

  /** The answer does not depend on the order in which the list is scanned, nor on
      how often an entry is repeated beyond once. */
  lemma ScanOrderIrrelevant(p: Point, t1: seq<Point>, t2: seq<Point>, tol: real)
    requires forall q :: q in t1 <==> q in t2
    ensures IsTabu(p, t1, tol) == IsTabu(p, t2, tol)
  {
    if IsTabu(p, t1, tol) {
      var i :| 0 <= i < |t1| && Near(p, t1[i], tol);
      assert t1[i] in t2;
    }
    if IsTabu(p, t2, tol) {
      var j :| 0 <= j < |t2| && Near(p, t2[j], tol);
      assert t2[j] in t1;
    }
  }
}
