/** Scalar bounds: the two ways the source restricts a coordinate to an interval. */
module Bounds {

  function Min(a: real, b: real): real { if b < a then b else a }

  function Max(a: real, b: real): real { if b > a then b else a }

  /** `max(lo, min(hi, v))`, the clamp of the 2-D neighbour generator.
      Inside the interval the value is kept; outside it the nearer bound is taken. */
  function Clamp(lo: real, hi: real, v: real): (c: real)
    ensures lo <= c
    ensures lo <= hi ==> c <= hi
    ensures lo <= v <= hi ==> c == v
    ensures lo <= hi && v < lo ==> c == lo
    ensures lo <= hi && hi < v ==> c == hi
  {
    Max(lo, Min(hi, v))
  }

  /** `numpy.clip(v, lo, hi)`, i.e. `min(max(v, lo), hi)`, used by the 1-D search. */
  function Clip(v: real, lo: real, hi: real): (c: real)
    ensures c <= hi
    ensures lo <= hi ==> lo <= c
    ensures lo <= v <= hi ==> c == v
    ensures lo <= hi && v < lo ==> c == lo
    ensures hi < v ==> c == hi
  {
    Min(Max(v, lo), hi)
  }

  /** The two formulations agree whenever the interval is non-empty. */
  lemma ClipIsClamp(v: real, lo: real, hi: real)
    requires lo <= hi
    ensures Clip(v, lo, hi) == Clamp(lo, hi, v)
  {
  }
}
