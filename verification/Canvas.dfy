/** The line list of `GLCanvas`: `line` appends, `flush` hands the list to the GPU and
    empties it, and `renderCameraFrustumGL` adds the lines of a camera frustum. Positions
    and colours are reals, so the dimming by 0.7 and the stepping of the band points are
    exact here, where the source rounds each float operation. */
module Canvas {
  import opened Wrappers
  import opened Boxes

  datatype Vec4 = Vec4(x: real, y: real, z: real, w: real)

  datatype VertexData = VertexData(position: Vec3, color: Vec4)

  /** `kMaxLines`, the capacity of the vertex buffer. */
  const MAX_LINES: int := 1024 * 1024

  /** `line`: the two end points, each with the colour `c`. */
  function Line(lines: seq<VertexData>, p1: Vec3, p2: Vec3, c: Vec4): (r: seq<VertexData>)
    ensures |r| == |lines| + 2 && r[..|lines|] == lines
    ensures r[|lines|] == VertexData(p1, c) && r[|lines| + 1] == VertexData(p2, c)
  {
    lines + [VertexData(p1, c), VertexData(p2, c)]
  }

  /** `flush`: nothing for an empty list; otherwise the whole list is drawn (`Some`) and
      the list is left empty. The list must fit the buffer, as the source asserts. */
  function Flush(lines: seq<VertexData>): (r: (seq<VertexData>, Option<seq<VertexData>>))
    requires |lines| < MAX_LINES
    ensures r.0 == []
    ensures r.1.None? <==> lines == []
    ensures r.1.Some? ==> r.1.value == lines
  {
    if lines == [] then (lines, None) else ([], Some(lines))
  }

  /** A second `flush` draws nothing. */
  lemma FlushTwice(lines: seq<VertexData>)
    requires |lines| < MAX_LINES
    ensures Flush(Flush(lines).0).1 == None
  {
  }

  function Add(a: Vec3, b: Vec3): Vec3 { Vec3(a.x + b.x, a.y + b.y, a.z + b.z) }

  function Scale(c: Vec4, f: real): Vec4 { Vec4(c.x * f, c.y * f, c.z * f, c.w * f) }

  const DIM_FACTOR: real := 0.7

  /** The sixteen frustum edges as pairs of corner indices, in the order they are drawn:
      the four side edges, the near rectangle and its two diagonals, the far rectangle and
      its two diagonals. */
  const EDGES: seq<(int, int)> := [
    (0, 4), (1, 5), (2, 6), (3, 7),
    (0, 1), (1, 2), (2, 3), (3, 0), (0, 2), (1, 3),
    (4, 5), (5, 6), (6, 7), (7, 4), (4, 6), (5, 7)]

  /** The four bands of dimmed lines (bottom, top, left, right): the corners each starts
      from and the indices of the two step vectors. */
  const BANDS: seq<(int, int)> := [(0, 1), (2, 3), (0, 3), (1, 2)]

  /** One band: `numSegments` lines from `p1`, `p2`, both moved by their step vector after
      every line. */
  method Band(lines: seq<VertexData>, p1: Vec3, p2: Vec3, s1: Vec3, s2: Vec3, c: Vec4, numSegments: nat)
    returns (r: seq<VertexData>)
    ensures |r| == |lines| + 2 * numSegments && r[..|lines|] == lines
    ensures forall j :: |lines| <= j < |r| ==> r[j].color == c
  {
    r := lines;
    var a, b := p1, p2;
    for i := 0 to numSegments
      invariant |r| == |lines| + 2 * i && r[..|lines|] == lines
      invariant forall j :: |lines| <= j < |r| ==> r[j].color == c
    {
      r := Line(r, a, b, c);
      a, b := Add(a, s1), Add(b, s2);
    }
  }

  /** `renderCameraFrustumGL` once the eight corners `pp` (the inverse view-projection of
      the unit cube) and the eight normalised step vectors `steps` have been computed: those
      are float computations left to the caller. It adds 16 + 4 * numSegments lines. */
  method RenderCameraFrustum(lines: seq<VertexData>, pp: seq<Vec3>, steps: seq<Vec3>, color: Vec4, numSegments: nat)
    returns (r: seq<VertexData>)
    requires |pp| == 8 && |steps| == 8
    ensures |r| == |lines| + 2 * (16 + 4 * numSegments) && r[..|lines|] == lines
    ensures forall e :: 0 <= e < 16 ==>
              && r[|lines| + 2 * e] == VertexData(pp[EDGES[e].0], color)
              && r[|lines| + 2 * e + 1] == VertexData(pp[EDGES[e].1], color)
    ensures forall j :: |lines| + 32 <= j < |r| ==> r[j].color == Scale(color, DIM_FACTOR)
  {
    r := lines;
    for e := 0 to 16
      invariant |r| == |lines| + 2 * e && r[..|lines|] == lines
      invariant forall k :: 0 <= k < e ==>
                  && r[|lines| + 2 * k] == VertexData(pp[EDGES[k].0], color)
                  && r[|lines| + 2 * k + 1] == VertexData(pp[EDGES[k].1], color)
    {
      r := Line(r, pp[EDGES[e].0], pp[EDGES[e].1], color);
    }
    ghost var edges := r;
    var dim := Scale(color, DIM_FACTOR);
    for band := 0 to 4
      invariant |r| == |lines| + 32 + 2 * numSegments * band && r[..|lines| + 32] == edges
      invariant forall j :: |lines| + 32 <= j < |r| ==> r[j].color == dim
    {
      var (i1, i2) := BANDS[band];
      ghost var before := r;
      r := Band(r, pp[i1], pp[i2], steps[2 * band], steps[2 * band + 1], dim, numSegments);
      assert r[..|lines| + 32] == before[..|lines| + 32] by {
        assert r[..|before|] == before;
      }
    }
    assert r[..|lines|] == edges[..|lines|] by { assert r[..|lines| + 32][..|lines|] == r[..|lines|]; }
    forall e | 0 <= e < 16
      ensures && r[|lines| + 2 * e] == VertexData(pp[EDGES[e].0], color)
              && r[|lines| + 2 * e + 1] == VertexData(pp[EDGES[e].1], color)
    {
      assert r[|lines| + 2 * e] == r[..|lines| + 32][|lines| + 2 * e];
      assert r[|lines| + 2 * e + 1] == r[..|lines| + 32][|lines| + 2 * e + 1];
    }
  }
}
