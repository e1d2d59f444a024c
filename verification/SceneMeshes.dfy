/** The mesh half of the scene converter: `convertAIMesh` appends each mesh's vertices
    (eight floats each) and the indices of all its LODs to one `MeshData`, and records in
    the descriptor where every LOD starts. Unlike the mesh converter, indices stay relative
    to the mesh and `lodOffset` counts indices, not bytes. */
module SceneMeshes {
  import opened Wrappers
  import opened Bytes
  import opened Assimp
  import opened Meshes
  import opened Lods
  import opened SceneFile

  /** `gNumElementsToStore`: position, texture coordinate and normal. */
  const ELEMENTS: nat := 8
  const STREAM_ELEMENT_SIZE: uint32 := 32

  /** The float operations of one conversion: `v * cfg.scale` and `1.0f - t`. */
  datatype FloatOps = FloatOps(scale: Float32 -> Float32, oneMinus: Float32 -> Float32)

  /** meshoptimizer's simplifiers and vertex-cache optimiser. */
  datatype Meshopt = Meshopt(simplify: Simplifier, sloppy: Simplifier, optimize: Reorder)

  /** The floats stored for vertex `i`: the scaled position, `t.x`, `1 - t.y`, the normal. */
  function VertexFloats(m: AiMesh, i: nat, ops: FloatOps): (r: seq<Float32>)
    requires ValidMesh(m) && i < |m.vertices|
    ensures |r| == ELEMENTS
  {
    var v, n, t := m.vertices[i], m.normals[i], TexCoord(m, i);
    [ops.scale(v.x), ops.scale(v.y), ops.scale(v.z), t.x, ops.oneMinus(t.y), n.x, n.y, n.z]
  }

  function Vertices(m: AiMesh, n: nat, ops: FloatOps): (r: seq<Float32>)
    requires ValidMesh(m) && n <= |m.vertices|
    ensures |r| == ELEMENTS * n
  {
    if n == 0 then [] else Vertices(m, n - 1, ops) + VertexFloats(m, n - 1, ops)
  }

  /** `srcVertices`: the unscaled positions handed to the simplifier, three floats each. */
  function Positions(m: AiMesh, n: nat): (r: seq<Float32>)
    requires ValidMesh(m) && n <= |m.vertices|
    ensures |r| == 3 * n
  {
    if n == 0 then [] else Positions(m, n - 1) + [m.vertices[n - 1].x, m.vertices[n - 1].y, m.vertices[n - 1].z]
  }

  // ---------------------------------------------------------------------------------------
  // The vertex count given to the simplifier

  /** `verticesCountIn` as the scene converter computes it: half the number of floats. */
  function PositionCountAsWritten(positions: seq<Float32>): (r: nat)
    ensures 2 * r <= |positions| < 2 * r + 2
  {
    |positions| / 2
  }

  /** From four floats on, that count claims more vertices than the array holds: the
      simplifier, reading three floats per vertex, is sent past the end of the positions
      of every mesh with two vertices or more. */
  lemma HalfCountOverruns(positions: seq<Float32>)
    requires |positions| >= 4
    ensures 3 * PositionCountAsWritten(positions) > |positions|
  {
  }

  /** The count as the mesh converter computes it: three floats per vertex. It never
      exceeds the array, and for the positions of `n` vertices it is `n`. */
  function PositionCount(positions: seq<Float32>): (r: nat)
    ensures 3 * r <= |positions| < 3 * r + 3
  {
    |positions| / 3
  }

  lemma PositionCountExact(m: AiMesh, n: nat)
    requires ValidMesh(m) && n <= |m.vertices|
    ensures PositionCount(Positions(m, n)) == n
  {
  }

  // ---------------------------------------------------------------------------------------
  // LOD offsets

  /** All LODs' indices, one after the other. */
  function Flatten(lods: seq<seq<uint32>>): (r: seq<uint32>) {
    if lods == [] then [] else lods[0] + Flatten(lods[1..])
  }

  /** The loop at the end of `convertAIMesh`: the running total before each LOD, then the
      grand total, in 32-bit arithmetic. */
  function LodOffsets(lods: seq<seq<uint32>>, start: uint32): (r: seq<uint32>)
    ensures |r| == |lods| + 1 && r[0] == start
  {
    if lods == [] then [start] else [start] + LodOffsets(lods[1..], U32(start + |lods[0]|))
  }

  lemma {:induction false} FlattenAppend(a: seq<seq<uint32>>, b: seq<seq<uint32>>)
    ensures Flatten(a + b) == Flatten(a) + Flatten(b)
  {
    if a != [] {
      assert (a + b)[1..] == a[1..] + b;
      FlattenAppend(a[1..], b);
    } else {
      assert a + b == b;
    }
  }

  /** The flattened indices are those before LOD `l`, LOD `l`, and those after it. */
  lemma {:induction false} FlattenSplit(lods: seq<seq<uint32>>, l: nat)
    requires l < |lods|
    ensures Flatten(lods) == Flatten(lods[..l]) + lods[l] + Flatten(lods[l + 1..])
  {
    var rest := [lods[l]] + lods[l + 1..];
    assert Flatten(lods) == Flatten(lods[..l]) + Flatten(rest) by {
      assert lods == lods[..l] + rest;
      FlattenAppend(lods[..l], rest);
    }
    assert Flatten(rest) == lods[l] + Flatten(lods[l + 1..]) by {
      assert rest[0] == lods[l] && rest[1..] == lods[l + 1..];
    }
    ConcatAssoc(Flatten(lods[..l]), lods[l], Flatten(lods[l + 1..]));
  }

  /** Without wrap-around, entry `l` is `start` plus the number of indices before LOD `l`. */
  lemma {:induction false} LodOffsetsPrefix(lods: seq<seq<uint32>>, start: uint32, l: nat)
    requires start + |Flatten(lods)| < TWO_32 && l <= |lods|
    ensures LodOffsets(lods, start)[l] == start + |Flatten(lods[..l])|
  {
    if l == 0 {
      assert lods[..0] == [];
    } else {
      var next := U32(start + |lods[0]|);
      U32Small(start + |lods[0]|);
      LodOffsetsPrefix(lods[1..], next, l - 1);
      assert lods[1..][..l - 1] == lods[..l][1..];
    }
  }

  /** Without wrap-around, the last entry is the total, and consecutive entries delimit
      each LOD in the flattened indices. */
  lemma {:induction false} LodOffsetsDelimit(lods: seq<seq<uint32>>, start: uint32, l: nat)
    requires start + |Flatten(lods)| < TWO_32 && l < |lods|
    ensures var r := LodOffsets(lods, start);
            && start <= r[l] <= r[l + 1] <= start + |Flatten(lods)|
            && r[l + 1] == r[l] + |lods[l]|
            && Flatten(lods)[r[l] - start..r[l + 1] - start] == lods[l]
  {
    FlattenSplit(lods, l);
    LodOffsetsPrefix(lods, start, l);
    LodOffsetsPrefix(lods, start, l + 1);
    assert lods[..l + 1] == lods[..l] + [lods[l]];
    FlattenAppend(lods[..l], [lods[l]]);
  }

  lemma {:induction false} LodOffsetsTotal(lods: seq<seq<uint32>>, start: uint32)
    requires start + |Flatten(lods)| < TWO_32
    ensures LodOffsets(lods, start)[|lods|] == start + |Flatten(lods)|
  {
    LodOffsetsPrefix(lods, start, |lods|);
    assert lods[..|lods|] == lods;
  }

  // ---------------------------------------------------------------------------------------
  // The conversion

  /** `gMeshData`, `gIndexOffset` and `gVertexOffset`. */
  datatype SceneState = SceneState(data: MeshData, indexOffset: uint32, vertexOffset: uint32)

  const START: SceneState := SceneState(MeshData([], [], []), 0, 0)

  /** The running totals count the indices and vertices stored so far. */
  predicate Consistent(st: SceneState) {
    && st.indexOffset == |st.data.indexData|
    && ELEMENTS * st.vertexOffset == |st.data.vertexData|
  }

  /** The descriptor and new state once the LODs are known and their offsets fit the
      `lodOffset` array. */
  function Build(st: SceneState, m: AiMesh, lods: seq<seq<uint32>>, ops: FloatOps): (r: (SceneState, Mesh))
    requires ValidMesh(m) && |lods| < MAX_LODS
    ensures WellShaped(r.1) && MarkerFits(r.1)
    ensures r.1.lodCount == |lods| && r.1.streamCount == 1
    ensures r.1.indexOffset == st.indexOffset && r.1.vertexOffset == st.vertexOffset
    ensures r.1.vertexCount == |m.vertices| && r.1.streamElementSize[0] == STREAM_ELEMENT_SIZE
    ensures r.1.lodOffset[..|lods| + 1] == LodOffsets(lods, 0)
    ensures r.0.data.meshes == st.data.meshes
    ensures r.0.data.indexData == st.data.indexData + Flatten(lods)
    ensures r.0.data.vertexData == st.data.vertexData + Vertices(m, |m.vertices|, ops)
    ensures r.0.indexOffset == U32(st.indexOffset + LodOffsets(lods, 0)[|lods|])
    ensures r.0.vertexOffset == U32(st.vertexOffset + |m.vertices|)
  {
    var offsets := LodOffsets(lods, 0);
    var mesh := NewMesh(|lods|, 1, Some(st.indexOffset), Some(st.vertexOffset), |m.vertices|,
                        offsets, [U32(st.vertexOffset * STREAM_ELEMENT_SIZE)], [STREAM_ELEMENT_SIZE]);
    var data := MeshData(st.data.meshes, st.data.indexData + Flatten(lods),
                         st.data.vertexData + Vertices(m, |m.vertices|, ops));
    (SceneState(data, U32(st.indexOffset + offsets[|lods|]), U32(st.vertexOffset + |m.vertices|)), mesh)
  }

  /** `outLods` as written: LOD 0 alone without `calculateLODs`, otherwise `processLods`
      with up to eight LODs and half the position floats as the vertex count. */
  function OutLodsAsWritten(m: AiMesh, calculateLods: bool, lib: Meshopt): (r: seq<seq<uint32>>)
    requires ValidMesh(m)
    ensures 1 <= |r| <= LOD_LIMIT && r[0] == Triangles(m.faces, 0)
  {
    var indices := Triangles(m.faces, 0);
    if !calculateLods then [indices]
    else ProcessLods(indices, PositionCountAsWritten(Positions(m, |m.vertices|)), LOD_LIMIT,
                     lib.simplify, lib.sloppy, lib.optimize)
  }

  /** `convertAIMesh` as written. The loop stores `lodOffset[l]` for every LOD and then the
      total at `lodOffset[outLods.size()]`: with eight LODs that is one past the end of the
      array, which is undefined behaviour (`Malformed`). */
  function ConvertAIMeshAsWritten(st: SceneState, m: AiMesh, calculateLods: bool, ops: FloatOps,
                                  lib: Meshopt): (r: Result<(SceneState, Mesh)>)
    requires ValidMesh(m)
    ensures r.Err? <==> |OutLodsAsWritten(m, calculateLods, lib)| == MAX_LODS
    ensures r.Err? ==> r.error == Malformed
    ensures r.Ok? ==> WellShaped(r.value.1) && MarkerFits(r.value.1) && r.value.0.data.meshes == st.data.meshes
    ensures r.Ok? ==> r.value.1.lodCount == |OutLodsAsWritten(m, calculateLods, lib)|
  {
    var lods := OutLodsAsWritten(m, calculateLods, lib);
    if |lods| >= MAX_LODS then Err(Malformed) else Ok(Build(st, m, lods, ops))
  }

  /** A mesh of at least 21867 triangles whose simplifier halves it every time reaches
      eight LODs, and the conversion writes past the `lodOffset` array. */
  lemma EightLodsOverflow(st: SceneState, m: AiMesh, ops: FloatOps)
    requires ValidMesh(m) && TriangleCount(m.faces) >= 21867
    ensures ConvertAIMeshAsWritten(st, m, true, ops, Meshopt(HALVE, HALVE, KEEP_ORDER)) == Err(Malformed)
  {
    EightLods(Triangles(m.faces, 0), PositionCountAsWritten(Positions(m, |m.vertices|)));
  }

  /** The LOD cap that keeps the end marker inside `lodOffset`. */
  const LOD_CAP: nat := MAX_LODS - 1

  /** `outLods` with `processLods` stopping at seven LODs and the vertex count taken as a
      third of the position floats. */
  function OutLods(m: AiMesh, calculateLods: bool, lib: Meshopt): (r: seq<seq<uint32>>)
    requires ValidMesh(m)
    ensures 1 <= |r| < MAX_LODS && r[0] == Triangles(m.faces, 0)
    ensures NonIncreasing(r)
  {
    var indices := Triangles(m.faces, 0);
    if !calculateLods then [indices]
    else ProcessLods(indices, PositionCount(Positions(m, |m.vertices|)), LOD_CAP,
                     lib.simplify, lib.sloppy, lib.optimize)
  }

  /** `convertAIMesh` with the corrected LOD loop: the marker always fits. */
  function ConvertAIMesh(st: SceneState, m: AiMesh, calculateLods: bool, ops: FloatOps, lib: Meshopt): (r: (SceneState, Mesh))
    requires ValidMesh(m)
    ensures MarkerFits(r.1) && r.1.lodCount == |OutLods(m, calculateLods, lib)|
  {
    Build(st, m, OutLods(m, calculateLods, lib), ops)
  }

  /** No total overflows 32 bits. */
  predicate StepFits(st: SceneState, m: AiMesh, lods: seq<seq<uint32>>) {
    && |st.data.indexData| + |Flatten(lods)| < TWO_32
    && 32 * (st.vertexOffset + |m.vertices|) < TWO_32
  }

  /** After the corrected conversion of a mesh whose sizes fit: the totals still agree with
      the data; `getLODIndicesCount(l)` is the size of LOD `l`; LOD `l` is found at
      `indexOffset + lodOffset[l]` in the index data; LOD 0 holds every triangle's indices;
      and the stream starts at the byte where the mesh's vertices do. */
  lemma ConvertAIMeshLods(st: SceneState, m: AiMesh, calculateLods: bool, ops: FloatOps, lib: Meshopt, l: nat)
    requires ValidMesh(m) && Consistent(st)
    requires StepFits(st, m, OutLods(m, calculateLods, lib))
    requires l < |OutLods(m, calculateLods, lib)|
    ensures var lods := OutLods(m, calculateLods, lib);
            var (st', mesh) := ConvertAIMesh(st, m, calculateLods, ops, lib);
            && Consistent(st')
            && LODIndicesCount(mesh, l) == |lods[l]|
            && mesh.lodOffset[l] <= mesh.lodOffset[l + 1]
            && mesh.indexOffset + mesh.lodOffset[l + 1] <= |st'.data.indexData|
            && st'.data.indexData[mesh.indexOffset + mesh.lodOffset[l]..mesh.indexOffset + mesh.lodOffset[l + 1]] == lods[l]
            && lods[0] == Triangles(m.faces, 0)
            && mesh.streamOffset[0] == 4 * |st.data.vertexData|
  {
    var lods := OutLods(m, calculateLods, lib);
    BuildTotals(st, m, lods, ops);
    BuildLodSlice(st, m, lods, ops, l);
  }

  /** `Build` keeps the totals consistent, and the stream starts at the byte where the
      mesh's vertices do. */
  lemma BuildTotals(st: SceneState, m: AiMesh, lods: seq<seq<uint32>>, ops: FloatOps)
    requires ValidMesh(m) && |lods| < MAX_LODS && Consistent(st) && StepFits(st, m, lods)
    ensures Consistent(Build(st, m, lods, ops).0)
    ensures Build(st, m, lods, ops).1.streamOffset[0] == 4 * |st.data.vertexData|
  {
    LodOffsetsTotal(lods, 0);
    SceneTotals(st, |Flatten(lods)|, |m.vertices|);
  }

  /** LOD `l` of the descriptor `Build` returns: its size, and where it sits in the index
      data. */
  lemma BuildLodSlice(st: SceneState, m: AiMesh, lods: seq<seq<uint32>>, ops: FloatOps, l: nat)
    requires ValidMesh(m) && |lods| < MAX_LODS && Consistent(st) && StepFits(st, m, lods) && l < |lods|
    ensures var (st', mesh) := Build(st, m, lods, ops);
            && LODIndicesCount(mesh, l) == |lods[l]|
            && mesh.lodOffset[l] <= mesh.lodOffset[l + 1]
            && mesh.indexOffset + mesh.lodOffset[l + 1] <= |st'.data.indexData|
            && st'.data.indexData[mesh.indexOffset + mesh.lodOffset[l]..mesh.indexOffset + mesh.lodOffset[l + 1]] == lods[l]
  {
    var (st', mesh) := Build(st, m, lods, ops);
    LodOffsetsDelimit(lods, 0, l);
    LodOffsetsTotal(lods, 0);
    var offsets := LodOffsets(lods, 0);
    assert mesh.lodOffset[l] == offsets[l] && mesh.lodOffset[l + 1] == offsets[l + 1];
    var before := st.data.indexData;
    assert st'.data.indexData[|before|..] == Flatten(lods);
    assert st'.data.indexData[|before| + offsets[l]..|before| + offsets[l + 1]] == Flatten(lods)[offsets[l]..offsets[l + 1]];
  }

  lemma SceneTotals(st: SceneState, indices: nat, vertices: nat)
    requires Consistent(st)
    requires |st.data.indexData| + indices < TWO_32 && 32 * (st.vertexOffset + vertices) < TWO_32
    ensures U32(st.indexOffset + indices) == st.indexOffset + indices
    ensures U32(st.vertexOffset + vertices) == st.vertexOffset + vertices
    ensures U32(st.vertexOffset * STREAM_ELEMENT_SIZE) == 4 * |st.data.vertexData|
  {
    U32Small(st.indexOffset + indices);
    U32Small(st.vertexOffset + vertices);
    U32Small(st.vertexOffset * 32);
  }

  /** The mesh whose as-written conversion reaches eight LODs and so writes past `lodOffset`. */
  predicate Overflows(m: AiMesh, calculateLods: bool, lib: Meshopt)
    requires ValidMesh(m)
  {
    |OutLodsAsWritten(m, calculateLods, lib)| == MAX_LODS
  }

  /** `gMeshData.meshes.push_back(mesh)` on the scene converter's own globals. The mesh
      converter is a separate program with globals of the same shape; its append is
      `MeshTool.Appended`, over its own state type. */
  function Appending(st: SceneState, mesh: Mesh): (r: SceneState)
    ensures r.data.meshes == st.data.meshes + [mesh]
    ensures r.data.indexData == st.data.indexData && r.data.vertexData == st.data.vertexData
    ensures r.indexOffset == st.indexOffset && r.vertexOffset == st.vertexOffset
  {
    st.(data := st.data.(meshes := st.data.meshes + [mesh]))
  }

  /** The loop of `processScene` over the meshes as written, each descriptor appended after
      `convertAIMesh`. The first mesh that reaches eight LODs makes the run undefined
      (`Malformed`); otherwise every descriptor leaves room for its end marker. */
  function ConvertAll(st: SceneState, ms: seq<AiMesh>, calculateLods: bool, ops: FloatOps, lib: Meshopt): (r: Result<SceneState>)
    requires forall i :: 0 <= i < |ms| ==> ValidMesh(ms[i])
    requires AllWellShaped(st.data.meshes)
    ensures r.Err? ==> r.error == Malformed
    ensures r.Ok? ==> AllWellShaped(r.value.data.meshes)
    ensures r.Ok? ==> |r.value.data.meshes| == |st.data.meshes| + |ms|
    ensures r.Ok? ==> r.value.data.meshes[..|st.data.meshes|] == st.data.meshes
    ensures r.Ok? ==> forall i :: |st.data.meshes| <= i < |r.value.data.meshes| ==> MarkerFits(r.value.data.meshes[i])
    decreases |ms|
  {
    if ms == [] then Ok(st)
    else
      var c := ConvertAIMeshAsWritten(st, ms[0], calculateLods, ops, lib);
      if c.Err? then Err(c.error)
      else
        var next := Appending(c.value.0, c.value.1);
        var r := ConvertAll(next, ms[1..], calculateLods, ops, lib);
        if r.Err? then r
        else
          MeshesAfterStep(st.data.meshes, c.value.1, r.value.data.meshes);
          r
  }

  /** What one loop step adds to the descriptors: `mesh` at the old end, the rest after it. */
  lemma MeshesAfterStep(before: seq<Mesh>, mesh: Mesh, out: seq<Mesh>)
    requires |before| + 1 <= |out| && out[..|before| + 1] == before + [mesh] && MarkerFits(mesh)
    requires forall i :: |before| + 1 <= i < |out| ==> MarkerFits(out[i])
    ensures out[..|before|] == before
    ensures forall i :: |before| <= i < |out| ==> MarkerFits(out[i])
  {
    assert out[|before|] == (before + [mesh])[|before|];
    assert out[..|before|] == out[..|before| + 1][..|before|];
  }

  /** The as-written loop fails exactly when some mesh reaches eight LODs. */
  lemma {:induction false} ConvertAllFails(st: SceneState, ms: seq<AiMesh>, calculateLods: bool, ops: FloatOps, lib: Meshopt)
    requires forall i :: 0 <= i < |ms| ==> ValidMesh(ms[i])
    requires AllWellShaped(st.data.meshes)
    ensures ConvertAll(st, ms, calculateLods, ops, lib).Err? <==> exists i :: 0 <= i < |ms| && Overflows(ms[i], calculateLods, lib)
    decreases |ms|
  {
    if ms != [] {
      OverflowsSplit(ms, calculateLods, lib);
      ConvertAllStep(st, ms, calculateLods, ops, lib);
      var c := ConvertAIMeshAsWritten(st, ms[0], calculateLods, ops, lib);
      if c.Ok? {
        ConvertAllFails(Appending(c.value.0, c.value.1), ms[1..], calculateLods, ops, lib);
      }
    }
  }

  /** One step of the as-written loop fails exactly when its mesh does or the rest of the
      loop does. */
  lemma ConvertAllStep(st: SceneState, ms: seq<AiMesh>, calculateLods: bool, ops: FloatOps, lib: Meshopt)
    requires ms != [] && forall i :: 0 <= i < |ms| ==> ValidMesh(ms[i])
    requires AllWellShaped(st.data.meshes)
    ensures var c := ConvertAIMeshAsWritten(st, ms[0], calculateLods, ops, lib);
            && (c.Err? ==> ConvertAll(st, ms, calculateLods, ops, lib).Err?)
            && (c.Ok? ==> AllWellShaped(Appending(c.value.0, c.value.1).data.meshes))
            && (c.Ok? ==> (ConvertAll(st, ms, calculateLods, ops, lib).Err? <==>
                           ConvertAll(Appending(c.value.0, c.value.1), ms[1..], calculateLods, ops, lib).Err?))
  {
  }

  /** Some mesh overflows exactly when the first does or one of the rest does. */
  lemma OverflowsSplit(ms: seq<AiMesh>, calculateLods: bool, lib: Meshopt)
    requires ms != [] && forall i :: 0 <= i < |ms| ==> ValidMesh(ms[i])
    ensures (exists i :: 0 <= i < |ms| && Overflows(ms[i], calculateLods, lib)) <==>
            Overflows(ms[0], calculateLods, lib) || exists i :: 0 <= i < |ms[1..]| && Overflows(ms[1..][i], calculateLods, lib)
  {
    if exists i :: 0 <= i < |ms| && Overflows(ms[i], calculateLods, lib) {
      var i :| 0 <= i < |ms| && Overflows(ms[i], calculateLods, lib);
      if i > 0 {
        assert ms[1..][i - 1] == ms[i];
      }
    }
  }

  /** The mesh step of `processScene` as written: the state starts empty, a scene that fails
      to import or has no meshes ends the process with `EXIT_FAILURE`, and a mesh that
      reaches eight LODs makes the run undefined. */
  function ProcessSceneMeshes(scene: Option<seq<AiMesh>>, calculateLods: bool, ops: FloatOps, lib: Meshopt): (r: Result<MeshData>)
    requires scene.Some? ==> forall i :: 0 <= i < |scene.value| ==> ValidMesh(scene.value[i])
    ensures r.Err? <==> scene.None? || scene.value == [] ||
                        exists i :: 0 <= i < |scene.value| && Overflows(scene.value[i], calculateLods, lib)
    ensures r.Err? && (scene.None? || scene.value == []) ==> r.error == Exit(EXIT_FAILURE)
    ensures r.Err? && scene.Some? && scene.value != [] ==> r.error == Malformed
    ensures r.Ok? ==> |r.value.meshes| == |scene.value| && AllWellShaped(r.value.meshes)
    ensures r.Ok? ==> forall i :: 0 <= i < |r.value.meshes| ==> MarkerFits(r.value.meshes[i])
  {
    match scene
    case None => Err(Exit(EXIT_FAILURE))
    case Some(ms) =>
      if ms == [] then Err(Exit(EXIT_FAILURE))
      else
        ConvertAllFails(START, ms, calculateLods, ops, lib);
        var r := ConvertAll(START, ms, calculateLods, ops, lib);
        if r.Err? then Err(r.error) else Ok(r.value.data)
  }

  /** Without `calculateLODs` no mesh has more than LOD 0, so the as-written and the corrected
      conversion store the same data. */
  lemma {:induction false} ConvertAllWithoutLods(st: SceneState, ms: seq<AiMesh>, ops: FloatOps, lib: Meshopt)
    requires forall i :: 0 <= i < |ms| ==> ValidMesh(ms[i])
    requires AllWellShaped(st.data.meshes)
    ensures ConvertAll(st, ms, false, ops, lib) == Ok(ConvertAllCorrected(st, ms, false, ops, lib))
    decreases |ms|
  {
    if ms != [] {
      assert OutLodsAsWritten(ms[0], false, lib) == OutLods(ms[0], false, lib);
      var (st', mesh) := ConvertAIMesh(st, ms[0], false, ops, lib);
      var next := st'.(data := st'.data.(meshes := st'.data.meshes + [mesh]));
      ConvertAllWithoutLods(next, ms[1..], ops, lib);
    }
  }

  /** The corrected loop over the meshes, on `ConvertAIMesh`. Every descriptor leaves room
      for its end marker. */
  function ConvertAllCorrected(st: SceneState, ms: seq<AiMesh>, calculateLods: bool, ops: FloatOps, lib: Meshopt): (r: SceneState)
    requires forall i :: 0 <= i < |ms| ==> ValidMesh(ms[i])
    requires AllWellShaped(st.data.meshes)
    ensures AllWellShaped(r.data.meshes)
    ensures |r.data.meshes| == |st.data.meshes| + |ms|
    ensures r.data.meshes[..|st.data.meshes|] == st.data.meshes
    ensures forall i :: |st.data.meshes| <= i < |r.data.meshes| ==> MarkerFits(r.data.meshes[i])
    decreases |ms|
  {
    if ms == [] then st
    else
      var (st', mesh) := ConvertAIMesh(st, ms[0], calculateLods, ops, lib);
      var next := st'.(data := st'.data.(meshes := st'.data.meshes + [mesh]));
      var r := ConvertAllCorrected(next, ms[1..], calculateLods, ops, lib);
      MeshesAfterStep(st.data.meshes, mesh, r.data.meshes);
      r
  }

  /** The mesh step of `processScene` with the corrected conversion: only a scene that fails
      to import or has no meshes fails, with `EXIT_FAILURE`. */
  function ProcessSceneMeshesCorrected(scene: Option<seq<AiMesh>>, calculateLods: bool, ops: FloatOps, lib: Meshopt): (r: Result<MeshData>)
    requires scene.Some? ==> forall i :: 0 <= i < |scene.value| ==> ValidMesh(scene.value[i])
    ensures r.Err? <==> scene.None? || scene.value == []
    ensures r.Err? ==> r.error == Exit(EXIT_FAILURE)
    ensures r.Ok? ==> |r.value.meshes| == |scene.value| && AllWellShaped(r.value.meshes)
    ensures r.Ok? ==> forall i :: 0 <= i < |r.value.meshes| ==> MarkerFits(r.value.meshes[i])
  {
    match scene
    case None => Err(Exit(EXIT_FAILURE))
    case Some(ms) =>
      if ms == [] then Err(Exit(EXIT_FAILURE)) else Ok(ConvertAllCorrected(START, ms, calculateLods, ops, lib).data)
  }
}
