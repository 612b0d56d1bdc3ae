/** Points of the 2-D search box and the Gaussian neighbour generator of the
    Langermann Tabu Search. */
module Plane {
  import opened Outcomes
  import opened Bounds

  /** A candidate solution `[x, y]`. */
  datatype Point = Point(x: real, y: real)

  /** The search box is [BoxLo, BoxHi] in both coordinates. */
  const BoxLo: real := 0.0
  const BoxHi: real := 10.0

  predicate InBox(p: Point) {
    BoxLo <= p.x <= BoxHi && BoxLo <= p.y <= BoxHi
  }

  /** dx^2 + dy^2. */
  function SqDist(p: Point, q: Point): real {
    (p.x - q.x) * (p.x - q.x) + (p.y - q.y) * (p.y - q.y)
  }

  /** One pair of standard-normal deviates; `random.gauss(mu, sigma)` returns
      `mu + z * sigma`, so the draws are the only random input of a neighbour. */
  datatype Draw = Draw(zx: real, zy: real)

  /** Indexing `None` (`position[0]` with `position = None`) raises this. */
  datatype TypeError = NoneNotSubscriptable

  /** The number of rounds `range(n)` performs. */
  function Reps(n: int): nat {
    if n < 0 then 0 else n
  }

  function Gauss(mu: real, sigma: real, z: real): real {
    mu + z * sigma
  }

  /** `c` is what clamping the sample `v` into the box must give. */
  predicate ClampedFrom(v: real, c: real) {
    && (BoxLo <= v <= BoxHi ==> c == v)
    && (v < BoxLo ==> c == BoxLo)
    && (BoxHi < v ==> c == BoxHi)
  }

  function Perturb(p: Point, sigma: real, d: Draw): Point {
    Point(Clamp(BoxLo, BoxHi, Gauss(p.x, sigma, d.zx)), Clamp(BoxLo, BoxHi, Gauss(p.y, sigma, d.zy)))
  }

  /** `generate_neighbors(position, count, sigma)`: `count` Gaussian perturbations of
      `position`, each coordinate clamped into the box. The loop body indexes
      `position`, so a `None` position fails as soon as one neighbour is asked for,
      and asking for none never touches it. `noise[i]` is the draw of neighbour `i`. */
  function GenerateNeighbors(position: Option<Point>, count: int, sigma: real, noise: seq<Draw>)
    : (r: Result<seq<Point>, TypeError>)
    requires count <= |noise|
    ensures r.Err? <==> 1 <= count && position.None?
    ensures r.Ok? ==> |r.value| == Reps(count)
    ensures r.Ok? ==> forall i :: 0 <= i < |r.value| ==> InBox(r.value[i])
    ensures r.Ok? && position.Some? ==> forall i :: 0 <= i < |r.value| ==>
      && ClampedFrom(Gauss(position.value.x, sigma, noise[i].zx), r.value[i].x)
      && ClampedFrom(Gauss(position.value.y, sigma, noise[i].zy), r.value[i].y)
  {
    if count <= 0 then Ok([])
    else if position.None? then Err(NoneNotSubscriptable)
    else Ok(seq(count, i requires 0 <= i < count => Perturb(position.value, sigma, noise[i])))
  }
}
