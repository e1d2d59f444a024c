/** The mesh converter: every mesh of the imported scene is appended to one `MeshData` as a
    single LOD with a single interleaved vertex stream, and the result is written with
    `saveMeshesToFile`. The running totals `gIndexOffset` and `gVertexOffset` are part of
    the state threaded through the conversion. */
module MeshTool {
  import opened Wrappers
  import opened Bytes
  import opened Assimp
  import opened Meshes

  /** `--export-texcoords` and `--export-normals`. */
  datatype ExportOptions = ExportOptions(textures: bool, normals: bool)

  /** `gNumElementsToStore`: three position floats, two more for texture coordinates and
      three more for normals. */
  function FloatsPerVertex(opts: ExportOptions): (r: nat)
    ensures 3 <= r <= 8
  {
    3 + (if opts.textures then 2 else 0) + (if opts.normals then 3 else 0)
  }

  /** The floats pushed for vertex `i`: the position, then `t.x` and `1 - t.y` when texture
      coordinates are exported, then the normal when normals are. The subtraction is a
      float operation and enters as `oneMinus`. */
  function VertexFloats(m: AiMesh, i: nat, opts: ExportOptions, oneMinus: Float32 -> Float32): (r: seq<Float32>)
    requires ValidMesh(m) && i < |m.vertices|
    ensures |r| == FloatsPerVertex(opts)
    ensures r[..3] == [m.vertices[i].x, m.vertices[i].y, m.vertices[i].z]
    ensures opts.textures ==> r[3..5] == [TexCoord(m, i).x, oneMinus(TexCoord(m, i).y)]
    ensures opts.normals ==> r[|r| - 3..] == [m.normals[i].x, m.normals[i].y, m.normals[i].z]
  {
    var v, n, t := m.vertices[i], m.normals[i], TexCoord(m, i);
    [v.x, v.y, v.z]
    + (if opts.textures then [t.x, oneMinus(t.y)] else [])
    + (if opts.normals then [n.x, n.y, n.z] else [])
  }

  /** The floats of the first `n` vertices, in order. */
  function Vertices(m: AiMesh, n: nat, opts: ExportOptions, oneMinus: Float32 -> Float32): (r: seq<Float32>)
    requires ValidMesh(m) && n <= |m.vertices|
    ensures |r| == FloatsPerVertex(opts) * n
  {
    if n == 0 then [] else Vertices(m, n - 1, opts, oneMinus) + VertexFloats(m, n - 1, opts, oneMinus)
  }

  /** Vertex `i` occupies exactly the `i`-th block of `FloatsPerVertex` floats. */
  lemma {:induction false} VerticesBlock(m: AiMesh, n: nat, opts: ExportOptions, oneMinus: Float32 -> Float32, i: nat)
    requires ValidMesh(m) && n <= |m.vertices| && i < n
    ensures var k := FloatsPerVertex(opts);
            Vertices(m, n, opts, oneMinus)[k * i..k * i + k] == VertexFloats(m, i, opts, oneMinus)
  {
    var k := FloatsPerVertex(opts);
    var front := Vertices(m, n - 1, opts, oneMinus);
    var r := Vertices(m, n, opts, oneMinus);
    var last := VertexFloats(m, n - 1, opts, oneMinus);
    assert r == front + last;
    if i == n - 1 {
      assert k * i == |front|;
      SliceAfter(front, last, k * i, k * i + k);
    } else {
      VerticesBlock(m, n - 1, opts, oneMinus, i);
      MulStep(k, i, n - 1);
      SliceBefore(front, last, k * i, k * i + k);
    }
  }

  lemma SliceBefore(a: seq<Float32>, b: seq<Float32>, lo: nat, hi: nat)
    requires lo <= hi <= |a|
    ensures (a + b)[lo..hi] == a[lo..hi]
  {
  }

  lemma SliceAfter(a: seq<Float32>, b: seq<Float32>, lo: nat, hi: nat)
    requires lo == |a| && hi == |a| + |b|
    ensures (a + b)[lo..hi] == b
  {
  }

  lemma {:induction false} MulStep(k: nat, i: nat, n: nat)
    requires i < n
    ensures k * i + k <= k * n
    decreases n
  {
    if n > i + 1 {
      MulStep(k, i, n - 1);
      assert k * n == k * (n - 1) + k;
    } else {
      assert k * n == k * i + k;
    }
  }

  /** `gMeshData`, `gIndexOffset` and `gVertexOffset`. */
  datatype ToolState = ToolState(data: MeshData, indexOffset: uint32, vertexOffset: uint32)

  const START: ToolState := ToolState(MeshData([], [], []), 0, 0)

  /** The running totals agree with the data: `gIndexOffset` counts the indices and
      `gVertexOffset` the vertices stored so far. */
  predicate Consistent(st: ToolState, opts: ExportOptions) {
    && st.indexOffset == |st.data.indexData|
    && FloatsPerVertex(opts) * st.vertexOffset == |st.data.vertexData|
  }

  /** The body of `ConvertAssimpMesh` once `numIndices` is known: the vertex floats and
      rebased triangle indices are appended, the descriptor records one LOD spanning byte
      offsets `4 * gIndexOffset` to `4 * (gIndexOffset + numIndices)` and one stream, and
      both totals advance, all in 32-bit arithmetic. */
  function ConvertWith(st: ToolState, m: AiMesh, opts: ExportOptions, oneMinus: Float32 -> Float32,
                       numIndices: uint32): (r: (ToolState, Mesh))
    requires ValidMesh(m)
    ensures WellShaped(r.1) && r.1.lodCount == 1 && r.1.streamCount == 1 && MarkerFits(r.1)
    ensures r.1.indexOffset == 0 && r.1.vertexOffset == 0 && r.1.vertexCount == |m.vertices|
    ensures r.1.streamElementSize[0] == 4 * FloatsPerVertex(opts)
    ensures r.0.data.meshes == st.data.meshes
    ensures r.0.data.indexData == st.data.indexData + Triangles(m.faces, st.vertexOffset)
    ensures r.0.data.vertexData == st.data.vertexData + Vertices(m, |m.vertices|, opts, oneMinus)
    ensures r.0.indexOffset == U32(st.indexOffset + numIndices)
    ensures r.0.vertexOffset == U32(st.vertexOffset + |m.vertices|)
  {
    var elementSize := 4 * FloatsPerVertex(opts);
    var mesh := NewMesh(1, 1, None, None, |m.vertices|,
                        [U32(4 * st.indexOffset), U32(4 * U32(st.indexOffset + numIndices))],
                        [U32(st.vertexOffset * elementSize)], [elementSize]);
    var data := MeshData(st.data.meshes,
                         st.data.indexData + Triangles(m.faces, st.vertexOffset),
                         st.data.vertexData + Vertices(m, |m.vertices|, opts, oneMinus));
    (ToolState(data, U32(st.indexOffset + numIndices), U32(st.vertexOffset + |m.vertices|)), mesh)
  }

  /** `ConvertAssimpMesh` as written: `numIndices` is `3 * mNumFaces`, which counts the
      skipped faces too. */
  function ConvertAssimpMeshAsWritten(st: ToolState, m: AiMesh, opts: ExportOptions,
                                      oneMinus: Float32 -> Float32): (r: (ToolState, Mesh))
    requires ValidMesh(m)
    ensures r.0.indexOffset == U32(st.indexOffset + U32(3 * |m.faces|))
  {
    ConvertWith(st, m, opts, oneMinus, U32(3 * |m.faces|))
  }

  /** A single mesh with one two-index face: the offset advances by three although no index
      was stored, so the totals no longer agree with the data. */
  lemma SkippedFaceDriftsOffset(v: Vec3f, opts: ExportOptions, oneMinus: Float32 -> Float32)
    ensures var m := AiMesh([v], [v], None, [[0, 0]], 0);
            var r := ConvertAssimpMeshAsWritten(START, m, opts, oneMinus);
            && r.0.indexOffset == 3 && r.0.data.indexData == []
            && r.1.lodOffset[1] == 12
            && !Consistent(r.0, opts)
  {
    var m := AiMesh([v], [v], None, [[0, 0]], 0);
    assert Triangles(m.faces, 0) == [];
  }

  /** `ConvertAssimpMesh` with `numIndices` counting the indices actually stored. */
  function ConvertAssimpMesh(st: ToolState, m: AiMesh, opts: ExportOptions,
                             oneMinus: Float32 -> Float32): (r: (ToolState, Mesh))
    requires ValidMesh(m)
    ensures r.0.indexOffset == U32(st.indexOffset + U32(3 * TriangleCount(m.faces)))
  {
    ConvertWith(st, m, opts, oneMinus, U32(3 * TriangleCount(m.faces)))
  }

  /** No running total or byte offset of this mesh overflows 32 bits. */
  predicate StepFits(st: ToolState, m: AiMesh, opts: ExportOptions) {
    && 4 * (|st.data.indexData| + 3 * TriangleCount(m.faces)) < TWO_32
    && 4 * (|st.data.vertexData| + FloatsPerVertex(opts) * |m.vertices|) < TWO_32
  }

  /** The corrected conversion keeps the totals in step with the data, and the descriptor's
      LOD offsets delimit, in bytes, exactly the indices this mesh appended; its stream
      starts at the byte where its vertices do. */
  lemma ConvertKeepsTotals(st: ToolState, m: AiMesh, opts: ExportOptions, oneMinus: Float32 -> Float32)
    requires ValidMesh(m) && Consistent(st, opts) && StepFits(st, m, opts)
    ensures var (st', mesh) := ConvertAssimpMesh(st, m, opts, oneMinus);
            && Consistent(st', opts)
            && mesh.lodOffset[0] == 4 * |st.data.indexData|
            && mesh.lodOffset[1] == 4 * |st'.data.indexData|
            && st'.data.indexData[mesh.lodOffset[0] / 4..mesh.lodOffset[1] / 4] == Triangles(m.faces, st.vertexOffset)
            && mesh.streamOffset[0] == 4 * |st.data.vertexData|
  {
    var (st', mesh) := ConvertAssimpMesh(st, m, opts, oneMinus);
    IndexTotals(st.indexOffset, 3 * TriangleCount(m.faces));
    VertexTotals(FloatsPerVertex(opts), st.vertexOffset, |m.vertices|);
  }

  /** The index side of `ConvertKeepsTotals`, on the numbers alone. */
  lemma IndexTotals(offset: uint32, count: nat)
    requires 4 * (offset + count) < TWO_32
    ensures U32(offset + U32(count)) == offset + count
    ensures U32(4 * offset) == 4 * offset
    ensures U32(4 * U32(offset + U32(count))) == 4 * (offset + count)
  {
    U32Small(count);
    U32Small(offset + count);
    U32Small(4 * offset);
    U32Small(4 * (offset + count));
  }

  /** The vertex side: with `k` floats per vertex and the float count fitting in bytes,
      neither the vertex total nor the stream's byte offset wraps. */
  lemma VertexTotals(k: nat, offset: uint32, count: nat)
    requires 3 <= k && 4 * (k * offset + k * count) < TWO_32
    ensures U32(offset + count) == offset + count
    ensures k * (offset + count) == k * offset + k * count
    ensures U32(offset * (4 * k)) == 4 * (k * offset)
  {
    assert k * (offset + count) == k * offset + k * count;
    var n := offset + count;
    assert k * n == n + (k - 1) * n;
    assert offset + count <= k * (offset + count);
    U32Small(offset + count);
    assert offset * (4 * k) == 4 * (k * offset);
    U32Small(4 * (k * offset));
  }

  /** `push_back` of one descriptor; the totals and the index and vertex data are untouched. */
  function Appended(st: ToolState, mesh: Mesh): (r: ToolState)
    ensures r.data.meshes == st.data.meshes + [mesh]
    ensures r.data.indexData == st.data.indexData && r.data.vertexData == st.data.vertexData
    ensures r.indexOffset == st.indexOffset && r.vertexOffset == st.vertexOffset
  {
    st.(data := st.data.(meshes := st.data.meshes + [mesh]))
  }

  /** `loadFile`'s loop as written: each mesh converted in turn by
      `ConvertAssimpMeshAsWritten`, its descriptor appended. */
  function ConvertAll(st: ToolState, ms: seq<AiMesh>, opts: ExportOptions, oneMinus: Float32 -> Float32): (r: ToolState)
    requires forall i :: 0 <= i < |ms| ==> ValidMesh(ms[i])
    requires AllWellShaped(st.data.meshes)
    ensures AllWellShaped(r.data.meshes)
    ensures |r.data.meshes| == |st.data.meshes| + |ms|
    ensures r.data.meshes[..|st.data.meshes|] == st.data.meshes
    ensures forall i :: |st.data.meshes| <= i < |r.data.meshes| ==> r.data.meshes[i].lodCount == 1
    decreases |ms|
  {
    if ms == [] then st
    else
      var c := ConvertAssimpMeshAsWritten(st, ms[0], opts, oneMinus);
      var next := Appended(c.0, c.1);
      var r := ConvertAll(next, ms[1..], opts, oneMinus);
      assert r.data.meshes[..|st.data.meshes|] == r.data.meshes[..|next.data.meshes|][..|st.data.meshes|];
      r
  }

  /** `loadFile`'s loop over the corrected `ConvertAssimpMesh`. */
  function ConvertAllCorrected(st: ToolState, ms: seq<AiMesh>, opts: ExportOptions, oneMinus: Float32 -> Float32): (r: ToolState)
    requires forall i :: 0 <= i < |ms| ==> ValidMesh(ms[i])
    requires AllWellShaped(st.data.meshes)
    ensures AllWellShaped(r.data.meshes)
    ensures |r.data.meshes| == |st.data.meshes| + |ms|
    ensures r.data.meshes[..|st.data.meshes|] == st.data.meshes
    ensures forall i :: |st.data.meshes| <= i < |r.data.meshes| ==> r.data.meshes[i].lodCount == 1
    decreases |ms|
  {
    if ms == [] then st
    else
      var c := ConvertAssimpMesh(st, ms[0], opts, oneMinus);
      var next := Appended(c.0, c.1);
      var r := ConvertAllCorrected(next, ms[1..], opts, oneMinus);
      assert r.data.meshes[..|st.data.meshes|] == r.data.meshes[..|next.data.meshes|][..|st.data.meshes|];
      r
  }

  /** Indices and floats of a list of meshes. */
  function TotalTriangles(ms: seq<AiMesh>): nat {
    if ms == [] then 0 else 3 * TriangleCount(ms[0].faces) + TotalTriangles(ms[1..])
  }

  function TotalVertices(ms: seq<AiMesh>): nat {
    if ms == [] then 0 else |ms[0].vertices| + TotalVertices(ms[1..])
  }

  /** Three indices per face, skipped faces included: what the source adds to
      `gIndexOffset`, before wrap-around. */
  function TotalFaceIndices(ms: seq<AiMesh>): nat {
    if ms == [] then 0 else 3 * |ms[0].faces| + TotalFaceIndices(ms[1..])
  }

  /** Wrapping once before a further addition wraps the same as wrapping at the end. */
  lemma U32Add(x: nat, y: nat)
    ensures U32(U32(x) + y) == U32(x + y)
  {
    var q := x / TWO_32;
    assert x == q * TWO_32 + U32(x);
    ModShift(q, U32(x) + y);
  }

  lemma {:induction false} ModShift(q: nat, z: nat)
    ensures (q * TWO_32 + z) % TWO_32 == z % TWO_32
  {
    if q > 0 {
      ModShift(q - 1, z);
      assert q * TWO_32 + z == (q - 1) * TWO_32 + z + TWO_32;
    }
  }

  /** Over a whole scene as written: the stored data grow by the triangle indices kept and
      the vertex floats, the vertex total stays in step with the floats when they fit, but
      the index total grows, modulo 2^32, by three indices for every face, skipped or not. */
  lemma ConvertAllTotals(st: ToolState, ms: seq<AiMesh>, opts: ExportOptions, oneMinus: Float32 -> Float32)
    requires forall i :: 0 <= i < |ms| ==> ValidMesh(ms[i])
    requires AllWellShaped(st.data.meshes)
    requires FloatsPerVertex(opts) * st.vertexOffset == |st.data.vertexData|
    requires 4 * (|st.data.vertexData| + FloatsPerVertex(opts) * TotalVertices(ms)) < TWO_32
    ensures var r := ConvertAll(st, ms, opts, oneMinus);
            && |r.data.indexData| == |st.data.indexData| + TotalTriangles(ms)
            && |r.data.vertexData| == |st.data.vertexData| + FloatsPerVertex(opts) * TotalVertices(ms)
            && FloatsPerVertex(opts) * r.vertexOffset == |r.data.vertexData|
            && r.indexOffset == U32(st.indexOffset + TotalFaceIndices(ms))
  {
    ConvertAllIndexTotals(st, ms, opts, oneMinus);
    ConvertAllVertexTotals(st, ms, opts, oneMinus);
  }

  /** The index side of `ConvertAllTotals`. */
  lemma {:induction false} ConvertAllIndexTotals(st: ToolState, ms: seq<AiMesh>, opts: ExportOptions,
                                                 oneMinus: Float32 -> Float32)
    requires forall i :: 0 <= i < |ms| ==> ValidMesh(ms[i])
    requires AllWellShaped(st.data.meshes)
    ensures var r := ConvertAll(st, ms, opts, oneMinus);
            && |r.data.indexData| == |st.data.indexData| + TotalTriangles(ms)
            && r.indexOffset == U32(st.indexOffset + TotalFaceIndices(ms))
    decreases |ms|
  {
    if ms == [] {
      U32Small(st.indexOffset);
    } else {
      var c := ConvertAssimpMeshAsWritten(st, ms[0], opts, oneMinus);
      ConvertAllIndexTotals(Appended(c.0, c.1), ms[1..], opts, oneMinus);
      IndexTotalStep(st.indexOffset, 3 * |ms[0].faces|, TotalFaceIndices(ms[1..]));
    }
  }

  /** The vertex side of `ConvertAllTotals`. */
  lemma {:induction false} ConvertAllVertexTotals(st: ToolState, ms: seq<AiMesh>, opts: ExportOptions,
                                                  oneMinus: Float32 -> Float32)
    requires forall i :: 0 <= i < |ms| ==> ValidMesh(ms[i])
    requires AllWellShaped(st.data.meshes)
    requires FloatsPerVertex(opts) * st.vertexOffset == |st.data.vertexData|
    requires 4 * (|st.data.vertexData| + FloatsPerVertex(opts) * TotalVertices(ms)) < TWO_32
    ensures var r := ConvertAll(st, ms, opts, oneMinus);
            && |r.data.vertexData| == |st.data.vertexData| + FloatsPerVertex(opts) * TotalVertices(ms)
            && FloatsPerVertex(opts) * r.vertexOffset == |r.data.vertexData|
    decreases |ms|
  {
    if ms != [] {
      var k, v0, tv := FloatsPerVertex(opts), |ms[0].vertices|, TotalVertices(ms[1..]);
      VertexStep(k, |st.data.vertexData|, st.vertexOffset, v0, tv);
      var c := ConvertAssimpMeshAsWritten(st, ms[0], opts, oneMinus);
      ConvertAllVertexTotals(Appended(c.0, c.1), ms[1..], opts, oneMinus);
    }
  }

  /** `gVertexOffset += mNumVertices` for one mesh of `v0` vertices followed by `tv` more:
      the total stays in step with the floats stored and the rest still fits. */
  lemma VertexStep(k: nat, floats: nat, offset: uint32, v0: nat, tv: nat)
    requires 3 <= k && k * offset == floats && 4 * (floats + k * (v0 + tv)) < TWO_32
    ensures k * U32(offset + v0) == floats + k * v0
    ensures 4 * (floats + k * v0 + k * tv) < TWO_32
    ensures floats + k * v0 + k * tv == floats + k * (v0 + tv)
  {
    assert k * (v0 + tv) == k * v0 + k * tv;
    VertexTotals(k, offset, v0);
  }

  /** One mesh's `gIndexOffset += numIndices`, then the rest of the scene's, wraps as one sum. */
  lemma IndexTotalStep(offset: nat, f: nat, rest: nat)
    ensures U32(U32(offset + U32(f)) + rest) == U32(offset + (f + rest))
  {
    U32Add(offset + U32(f), rest);
    U32Add(f, offset + rest);
    assert offset + U32(f) + rest == U32(f) + (offset + rest);
  }

  /** Every face of every mesh has three indices. */
  predicate AllTriangleFaces(ms: seq<AiMesh>) {
    forall i, j :: 0 <= i < |ms| && 0 <= j < |ms[i].faces| ==> |ms[i].faces[j]| == 3
  }

  /** When no face is skipped, the loop as written and the corrected loop agree. */
  lemma {:induction false} ConvertAllAgrees(st: ToolState, ms: seq<AiMesh>, opts: ExportOptions,
                                            oneMinus: Float32 -> Float32)
    requires forall i :: 0 <= i < |ms| ==> ValidMesh(ms[i])
    requires AllWellShaped(st.data.meshes) && AllTriangleFaces(ms)
    ensures ConvertAll(st, ms, opts, oneMinus) == ConvertAllCorrected(st, ms, opts, oneMinus)
    decreases |ms|
  {
    if ms != [] {
      AllTriangles(ms[0].faces);
      assert forall j :: 0 <= j < |ms[0].faces| ==> |ms[0].faces[j]| == 3;
      var c := ConvertAssimpMesh(st, ms[0], opts, oneMinus);
      assert ConvertAssimpMeshAsWritten(st, ms[0], opts, oneMinus) == c;
      assert AllTriangleFaces(ms[1..]) by {
        assert forall i :: 0 <= i < |ms[1..]| ==> ms[1..][i] == ms[i + 1];
      }
      ConvertAllAgrees(Appended(c.0, c.1), ms[1..], opts, oneMinus);
    }
  }

  /** Over a whole scene whose sizes fit, the corrected totals stay in step with the data. */
  lemma {:induction false} ConvertAllCorrectedKeepsTotals(st: ToolState, ms: seq<AiMesh>, opts: ExportOptions,
                                                          oneMinus: Float32 -> Float32)
    requires forall i :: 0 <= i < |ms| ==> ValidMesh(ms[i])
    requires AllWellShaped(st.data.meshes) && Consistent(st, opts)
    requires 4 * (|st.data.indexData| + TotalTriangles(ms)) < TWO_32
    requires 4 * (|st.data.vertexData| + FloatsPerVertex(opts) * TotalVertices(ms)) < TWO_32
    ensures var r := ConvertAllCorrected(st, ms, opts, oneMinus);
            && Consistent(r, opts)
            && |r.data.indexData| == |st.data.indexData| + TotalTriangles(ms)
            && |r.data.vertexData| == |st.data.vertexData| + FloatsPerVertex(opts) * TotalVertices(ms)
    decreases |ms|
  {
    if ms != [] {
      VertexStep(FloatsPerVertex(opts), |st.data.vertexData|, st.vertexOffset, |ms[0].vertices|, TotalVertices(ms[1..]));
      ConvertKeepsTotals(st, ms[0], opts, oneMinus);
      var c := ConvertAssimpMesh(st, ms[0], opts, oneMinus);
      ConvertAllCorrectedKeepsTotals(Appended(c.0, c.1), ms[1..], opts, oneMinus);
    }
  }

  /** `loadFile`: a scene that fails to import or has no meshes ends the process with 255;
      otherwise the loop as written runs over its meshes. */
  function LoadFile(scene: Option<seq<AiMesh>>, opts: ExportOptions, oneMinus: Float32 -> Float32): (r: Result<MeshData>)
    requires scene.Some? ==> forall i :: 0 <= i < |scene.value| ==> ValidMesh(scene.value[i])
    ensures r.Err? <==> scene.None? || scene.value == []
    ensures r.Err? ==> r.error == Exit(255)
    ensures r.Ok? ==> |r.value.meshes| == |scene.value| && AllWellShaped(r.value.meshes)
  {
    match scene
    case None => Err(Exit(255))
    case Some(ms) =>
      if ms == [] then Err(Exit(255)) else Ok(ConvertAll(START, ms, opts, oneMinus).data)
  }

  /** `loadFile` over the corrected loop. */
  function LoadFileCorrected(scene: Option<seq<AiMesh>>, opts: ExportOptions, oneMinus: Float32 -> Float32): (r: Result<MeshData>)
    requires scene.Some? ==> forall i :: 0 <= i < |scene.value| ==> ValidMesh(scene.value[i])
    ensures r.Err? <==> scene.None? || scene.value == []
    ensures r.Err? ==> r.error == Exit(255)
    ensures r.Ok? ==> |r.value.meshes| == |scene.value| && AllWellShaped(r.value.meshes)
  {
    match scene
    case None => Err(Exit(255))
    case Some(ms) =>
      if ms == [] then Err(Exit(255)) else Ok(ConvertAllCorrected(START, ms, opts, oneMinus).data)
  }

  /** A triangulated scene loads the same either way; the stored index and vertex data are
      the same in every case. */
  lemma LoadFileAgrees(scene: Option<seq<AiMesh>>, opts: ExportOptions, oneMinus: Float32 -> Float32)
    requires scene.Some? ==> forall i :: 0 <= i < |scene.value| ==> ValidMesh(scene.value[i])
    requires scene.Some? ==> AllTriangleFaces(scene.value)
    ensures LoadFile(scene, opts, oneMinus) == LoadFileCorrected(scene, opts, oneMinus)
  {
    if scene.Some? && scene.value != [] {
      ConvertAllAgrees(START, scene.value, opts, oneMinus);
    }
  }

  /** `main`. `positional` are argh's positional arguments, the program name first, and
      `flags` the flag names given, with their leading dashes removed as argh removes them
      (so `---export-normals` in the source matches `--export-normals` on the command
      line). Fewer than three positional arguments print the usage and exit with 255.
      The result is the content written to the output file. */
  function MeshToolMain(positional: seq<string>, flags: set<string>, scene: Option<seq<AiMesh>>,
                        oneMinus: Float32 -> Float32): (r: Result<seq<byte>>)
    requires scene.Some? ==> forall i :: 0 <= i < |scene.value| ==> ValidMesh(scene.value[i])
    ensures |positional| < 3 ==> r == Err(Exit(255))
    ensures |positional| >= 3 ==> (r.Err? <==> scene.None? || scene.value == [])
    ensures r.Err? ==> r.error == Exit(255)
  {
    if |positional| < 3 then Err(Exit(255))
    else
      match LoadFile(scene, Options(flags), oneMinus)
      case Err(e) => Err(e)
      case Ok(data) => Ok(SaveMeshes(data))
  }

  /** The options the flags select. */
  function Options(flags: set<string>): (r: ExportOptions)
    ensures r.textures <==> "t" in flags || "export-texcoords" in flags
    ensures r.normals <==> "n" in flags || "export-normals" in flags
  {
    ExportOptions("t" in flags || "export-texcoords" in flags, "n" in flags || "export-normals" in flags)
  }

  /** The file the converter writes loads back, through `loadMeshData`, as exactly the
      data `loadFile` built, one single-LOD descriptor per converted mesh, provided the
      sizes fit their header fields. */
  lemma ConverterOutputLoads(positional: seq<string>, flags: set<string>, ms: seq<AiMesh>,
                             oneMinus: Float32 -> Float32)
    requires forall i :: 0 <= i < |ms| ==> ValidMesh(ms[i])
    requires |positional| >= 3 && ms != []
    requires Fits(LoadFile(Some(ms), Options(flags), oneMinus).value)
    ensures var r := MeshToolMain(positional, flags, Some(ms), oneMinus);
            var data := ConvertAll(START, ms, Options(flags), oneMinus).data;
            var loaded := LoadMeshData(Some(r.value));
            && r.Ok? && loaded.Ok? && loaded.value.1 == data
            && |loaded.value.1.meshes| == |ms|
            && forall i :: 0 <= i < |ms| ==> loaded.value.1.meshes[i].lodCount == 1
  {
    var data := LoadFile(Some(ms), Options(flags), oneMinus).value;
    LoadSaveMeshes(data);
  }
}
