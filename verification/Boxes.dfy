/** `clamp` and the axis-aligned `BoundingBox` of the math utilities. Coordinates are
    reals: the source's floats round `max - min` and overflow to infinity for the empty
    box, and neither is modelled. */
module Boxes {
  /** `std::numeric_limits<float>::max()`; `lowest()` is its negation. */
  const FLT_MAX: real := 340282346638528859811704183484516925440.0

  /** `clamp(v, a, b)`. */
  function Clamp(v: real, a: real, b: real): (r: real)
    ensures v < a ==> r == a
    ensures a <= v && v > b ==> r == b
    ensures a <= v <= b ==> r == v
    ensures a <= b ==> a <= r <= b
  {
    if v < a then a else if v > b then b else v
  }

  datatype Vec3 = Vec3(x: real, y: real, z: real)

  datatype BoundingBox = BoundingBox(min: Vec3, max: Vec3)

  function Min(a: real, b: real): real { if a < b then a else b }
  function Max(a: real, b: real): real { if a < b then b else a }

  /** `glm::min` and `glm::max` on vectors: componentwise. */
  function MinVec(a: Vec3, b: Vec3): Vec3 { Vec3(Min(a.x, b.x), Min(a.y, b.y), Min(a.z, b.z)) }
  function MaxVec(a: Vec3, b: Vec3): Vec3 { Vec3(Max(a.x, b.x), Max(a.y, b.y), Max(a.z, b.z)) }

  predicate Ordered(b: BoundingBox) {
    b.min.x <= b.max.x && b.min.y <= b.max.y && b.min.z <= b.max.z
  }

  predicate Contains(b: BoundingBox, p: Vec3) {
    && b.min.x <= p.x <= b.max.x
    && b.min.y <= p.y <= b.max.y
    && b.min.z <= p.z <= b.max.z
  }

  /** The box `BoundingBox(min, max)` builds: the corners sorted componentwise, so the box
      is ordered and holds both given points. */
  function BoxOfCorners(a: Vec3, b: Vec3): (r: BoundingBox)
    ensures Ordered(r) && Contains(r, a) && Contains(r, b)
    ensures forall c :: Contains(c, a) && Contains(c, b) ==> Contains(c, r.min) && Contains(c, r.max)
  {
    BoundingBox(MinVec(a, b), MaxVec(a, b))
  }

  /** A finite `float` lies between `lowest()` and `max()`. */
  predicate FiniteFloat(v: real) { -FLT_MAX <= v <= FLT_MAX }

  predicate FinitePoint(p: Vec3) { FiniteFloat(p.x) && FiniteFloat(p.y) && FiniteFloat(p.z) }

  /** Each bound of `b` is a coordinate of one of the points. */
  predicate Attained(b: BoundingBox, points: seq<Vec3>) {
    && (exists j :: 0 <= j < |points| && b.min.x == points[j].x)
    && (exists j :: 0 <= j < |points| && b.min.y == points[j].y)
    && (exists j :: 0 <= j < |points| && b.min.z == points[j].z)
    && (exists j :: 0 <= j < |points| && b.max.x == points[j].x)
    && (exists j :: 0 <= j < |points| && b.max.y == points[j].y)
    && (exists j :: 0 <= j < |points| && b.max.z == points[j].z)
  }

  /** The point-set constructor: the box starts inverted at (`max()`, `lowest()`) and takes
      the componentwise minimum and maximum with every point. It holds every point; for
      finite points its bounds are attained, so it is the least such box; with no points it
      stays inverted. */
  method BoxOfPoints(points: seq<Vec3>) returns (r: BoundingBox)
    ensures forall i :: 0 <= i < |points| ==> Contains(r, points[i])
    ensures points != [] && (forall i :: 0 <= i < |points| ==> FinitePoint(points[i])) ==> Attained(r, points)
    ensures points == [] ==> r == BoundingBox(Vec3(FLT_MAX, FLT_MAX, FLT_MAX), Vec3(-FLT_MAX, -FLT_MAX, -FLT_MAX))
  {
    var vmin := Vec3(FLT_MAX, FLT_MAX, FLT_MAX);
    var vmax := Vec3(-FLT_MAX, -FLT_MAX, -FLT_MAX);
    var finite := true;
    for i := 0 to |points|
      invariant forall j :: 0 <= j < i ==> Contains(BoundingBox(vmin, vmax), points[j])
      invariant finite == (forall j :: 0 <= j < i ==> FinitePoint(points[j]))
      invariant i > 0 && finite ==> Attained(BoundingBox(vmin, vmax), points[..i])
      invariant i == 0 ==> vmin == Vec3(FLT_MAX, FLT_MAX, FLT_MAX) && vmax == Vec3(-FLT_MAX, -FLT_MAX, -FLT_MAX)
    {
      var p := points[i];
      ghost var before := BoundingBox(vmin, vmax);
      vmin := MinVec(vmin, p);
      vmax := MaxVec(vmax, p);
      if finite && FinitePoint(p) {
        AttainedStep(before, BoundingBox(vmin, vmax), points[..i], p, i == 0);
        assert points[..i + 1] == points[..i] + [p];
      }
      finite := finite && FinitePoint(p);
    }
    assert points[..|points|] == points;
    r := BoundingBox(vmin, vmax);
  }

  /** One step of the constructor's loop keeps every bound attained. */
  lemma AttainedStep(before: BoundingBox, after: BoundingBox, seen: seq<Vec3>, p: Vec3, first: bool)
    requires FinitePoint(p)
    requires first ==> before == BoundingBox(Vec3(FLT_MAX, FLT_MAX, FLT_MAX), Vec3(-FLT_MAX, -FLT_MAX, -FLT_MAX))
    requires !first ==> Attained(before, seen)
    requires after == BoundingBox(MinVec(before.min, p), MaxVec(before.max, p))
    ensures Attained(after, seen + [p])
  {
    var all := seen + [p];
    assert all[|seen|] == p;
    if !first {
      forall j | 0 <= j < |seen| ensures all[j] == seen[j] { }
    }
  }

  /** `getSize`: the extent along each axis, non-negative for an ordered box. */
  function Size(b: BoundingBox): (r: Vec3)
    ensures Ordered(b) <==> (r.x >= 0.0 && r.y >= 0.0 && r.z >= 0.0)
    ensures b.min.x + r.x == b.max.x && b.min.y + r.y == b.max.y && b.min.z + r.z == b.max.z
  {
    Vec3(b.max.x - b.min.x, b.max.y - b.min.y, b.max.z - b.min.z)
  }

  /** `combinePoint`: the box grows to hold `p` and keeps everything it held. */
  function CombinePoint(b: BoundingBox, p: Vec3): (r: BoundingBox)
    ensures Contains(r, p)
    ensures forall q :: Contains(b, q) ==> Contains(r, q)
  {
    BoundingBox(MinVec(b.min, p), MaxVec(b.max, p))
  }

  /** Every box holding `b` and `p` holds `CombinePoint(b, p)`: it is the least such box. */
  lemma CombinePointLeast(b: BoundingBox, p: Vec3, c: BoundingBox)
    requires Ordered(b) && Contains(c, b.min) && Contains(c, b.max) && Contains(c, p)
    ensures var r := CombinePoint(b, p);
            Contains(c, r.min) && Contains(c, r.max)
  {
  }

  /** The eight corners of a box, in the order `combineBoxes` collects them. */
  function Corners(b: BoundingBox): (r: seq<Vec3>)
    ensures |r| == 8
  {
    var lo, hi := b.min, b.max;
    [Vec3(lo.x, lo.y, lo.z), Vec3(lo.x, lo.y, hi.z), Vec3(lo.x, hi.y, lo.z), Vec3(lo.x, hi.y, hi.z),
     Vec3(hi.x, lo.y, lo.z), Vec3(hi.x, lo.y, hi.z), Vec3(hi.x, hi.y, lo.z), Vec3(hi.x, hi.y, hi.z)]
  }

  function AllCorners(boxes: seq<BoundingBox>): (r: seq<Vec3>)
    ensures |r| == 8 * |boxes|
    ensures forall i, k :: 0 <= i < |boxes| && 0 <= k < 8 ==> r[8 * i + k] == Corners(boxes[i])[k]
  {
    if boxes == [] then [] else Corners(boxes[0]) + AllCorners(boxes[1..])
  }

  /** `combineBoxes`: the box of all corners of all boxes, which holds every corner. */
  method CombineBoxes(boxes: seq<BoundingBox>) returns (r: BoundingBox)
    ensures forall i, k :: 0 <= i < |boxes| && 0 <= k < 8 ==> Contains(r, Corners(boxes[i])[k])
    ensures boxes == [] ==> r == BoundingBox(Vec3(FLT_MAX, FLT_MAX, FLT_MAX), Vec3(-FLT_MAX, -FLT_MAX, -FLT_MAX))
  {
    var all := AllCorners(boxes);
    r := BoxOfPoints(all);
    forall i, k | 0 <= i < |boxes| && 0 <= k < 8
      ensures Contains(r, Corners(boxes[i])[k])
    {
      assert all[8 * i + k] == Corners(boxes[i])[k];
    }
  }
}
