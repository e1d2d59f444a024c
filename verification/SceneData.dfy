/** `GLSceneData`: the renderer's view of a converted scene. Texture indices in the materials
    become bindless handles, one draw command is made for every node that has both a mesh and
    a material, and the global transforms are recomputed from node 0 down. */
module SceneData {
  import opened Bytes
  import opened Matrix
  import opened SceneGraph
  import opened SceneMarking
  import opened SceneTransforms
  import opened ScenePropagation
  import opened Materials
  import opened Meshes
  import opened Textures
  import opened Assimp
  import opened Traverse

  // ---------------------------------------------------------------------------------------
  // getTextureHandleBindless

  /** Bindless handles are `GLuint64` values. */
  predicate HandlesFit(textures: seq<Texture>) {
    forall j :: 0 <= j < |textures| ==> 0 <= textures[j].bindless < 0x1_0000_0000_0000_0000
  }

  /** A map field holds no texture, or the index of one of `textures`. */
  predicate ValidIndex(idx: uint64, textures: seq<Texture>) {
    idx == INVALID_TEXTURE || idx < |textures|
  }

  /** `getTextureHandleBindless`: no texture gives handle 0, any other index the bindless
      handle of the texture it names. */
  function TextureHandle(idx: uint64, textures: seq<Texture>): (r: uint64)
    requires HandlesFit(textures) && ValidIndex(idx, textures)
    ensures idx == INVALID_TEXTURE ==> r == 0
    ensures idx != INVALID_TEXTURE ==> r == textures[idx].bindless
  {
    if idx == INVALID_TEXTURE then 0 else textures[idx].bindless
  }

  /** The five maps the renderer samples through bindless handles. */
  predicate MapsValid(m: MaterialData, textures: seq<Texture>) {
    && ValidIndex(m.ambientOcclusionMap, textures) && ValidIndex(m.emissiveMap, textures)
    && ValidIndex(m.albedoMap, textures) && ValidIndex(m.metallicRoughnessMap, textures)
    && ValidIndex(m.normalMap, textures)
  }

  /** The body of the constructor's loop over `mMaterials` for one material: the ambient
      occlusion, emissive, albedo, metallic-roughness and normal maps are replaced by their
      handles; every other field, the opacity map included, stays as loaded. */
  function BindMaterial(m: MaterialData, textures: seq<Texture>): (r: MaterialData)
    requires HandlesFit(textures) && MapsValid(m, textures)
    ensures r.(ambientOcclusionMap := m.ambientOcclusionMap, emissiveMap := m.emissiveMap, albedoMap := m.albedoMap,
               metallicRoughnessMap := m.metallicRoughnessMap, normalMap := m.normalMap) == m
    ensures r.opacityMap == m.opacityMap
  {
    m.(ambientOcclusionMap := TextureHandle(m.ambientOcclusionMap, textures),
       emissiveMap := TextureHandle(m.emissiveMap, textures),
       albedoMap := TextureHandle(m.albedoMap, textures),
       metallicRoughnessMap := TextureHandle(m.metallicRoughnessMap, textures),
       normalMap := TextureHandle(m.normalMap, textures))
  }

  /** A map field after binding: 0 where the material had no such map, else the bindless
      handle of the texture the index named. */
  predicate BoundFrom(before: uint64, after: uint64, textures: seq<Texture>)
    requires ValidIndex(before, textures)
  {
    if before == INVALID_TEXTURE then after == 0 else after == textures[before].bindless
  }

  /** Each of the five maps is resolved through its own index. */
  lemma BindMaterialMaps(m: MaterialData, textures: seq<Texture>)
    requires HandlesFit(textures) && MapsValid(m, textures)
    ensures BoundFrom(m.ambientOcclusionMap, BindMaterial(m, textures).ambientOcclusionMap, textures)
    ensures BoundFrom(m.emissiveMap, BindMaterial(m, textures).emissiveMap, textures)
    ensures BoundFrom(m.albedoMap, BindMaterial(m, textures).albedoMap, textures)
    ensures BoundFrom(m.metallicRoughnessMap, BindMaterial(m, textures).metallicRoughnessMap, textures)
    ensures BoundFrom(m.normalMap, BindMaterial(m, textures).normalMap, textures)
  {
  }

  /** The default material has no maps: binding gives five zero handles and keeps its opacity
      map index, which still says "none". */
  lemma BindDefaultMaterial(textures: seq<Texture>)
    requires HandlesFit(textures)
    ensures var r := BindMaterial(DEFAULT_MATERIAL, textures);
            && r.ambientOcclusionMap == 0 && r.emissiveMap == 0 && r.albedoMap == 0
            && r.metallicRoughnessMap == 0 && r.normalMap == 0
            && r.opacityMap == INVALID_TEXTURE
  {
    DefaultMaterialFlags();
  }

  /** The constructor's loop over `mMaterials`, the textures being those created in order from
      the loaded file names. */
  function BindMaterials(ms: seq<MaterialData>, textures: seq<Texture>): (r: seq<MaterialData>)
    requires HandlesFit(textures) && forall i :: 0 <= i < |ms| ==> MapsValid(ms[i], textures)
    ensures |r| == |ms|
    ensures forall i :: 0 <= i < |ms| ==> r[i] == BindMaterial(ms[i], textures)
  {
    seq(|ms|, i requires 0 <= i < |ms| => BindMaterial(ms[i], textures))
  }

  // ---------------------------------------------------------------------------------------
  // The draw-data join of loadScene

  /** Every node with both a mesh and a material names a loaded mesh. */
  predicate MeshesKnown(sc: Scene, meshes: seq<Mesh>) {
    forall key :: key in sc.nodeIDToMeshID && key in sc.nodeIDToMaterialID ==> sc.nodeIDToMeshID[key] < |meshes|
  }

  /** The draw command of node `key`: its mesh and material, LOD 0, the mesh's index and
      vertex offsets, and the node's own transform. */
  function Draw(sc: Scene, meshes: seq<Mesh>, key: uint32): (d: DrawData)
    requires MeshesKnown(sc, meshes) && key in sc.nodeIDToMeshID && key in sc.nodeIDToMaterialID
  {
    var mesh := sc.nodeIDToMeshID[key];
    DrawData(mesh, sc.nodeIDToMaterialID[key], 0, meshes[mesh].indexOffset, meshes[mesh].vertexOffset, key)
  }

  /** `order` lists every key of `m` exactly once: the iteration order of the
      `unordered_map`, which the language leaves unspecified. */
  predicate Enumerates(order: seq<uint32>, m: map<uint32, uint32>) {
    && (forall i, j :: 0 <= i < j < |order| ==> order[i] != order[j])
    && (forall i :: 0 <= i < |order| ==> order[i] in m)
    && (forall key :: key in m ==> key in order)
  }

  /** The loop over `nodeIDToMeshID`, visiting `order`: a node also found in
      `nodeIDToMaterialID` pushes its draw command; a mesh-only node pushes nothing. */
  function Shapes(sc: Scene, meshes: seq<Mesh>, order: seq<uint32>): (r: seq<DrawData>)
    requires MeshesKnown(sc, meshes) && forall i :: 0 <= i < |order| ==> order[i] in sc.nodeIDToMeshID
    ensures |r| <= |order|
    ensures forall i :: 0 <= i < |r| ==>
              r[i].transformIndex in order && r[i].transformIndex in sc.nodeIDToMeshID &&
              r[i].transformIndex in sc.nodeIDToMaterialID && r[i] == Draw(sc, meshes, r[i].transformIndex)
  {
    if order == [] then []
    else
      var key := order[0];
      var rest := Shapes(sc, meshes, order[1..]);
      assert forall i :: 0 <= i < |rest| ==> rest[i].transformIndex in order;
      if key in sc.nodeIDToMaterialID then [Draw(sc, meshes, key)] + rest else rest
  }

  /** A node of `order` that has a material gets a draw command. */
  lemma {:induction false} ShapesCover(sc: Scene, meshes: seq<Mesh>, order: seq<uint32>, key: uint32)
    requires MeshesKnown(sc, meshes) && forall i :: 0 <= i < |order| ==> order[i] in sc.nodeIDToMeshID
    requires key in order && key in sc.nodeIDToMaterialID
    ensures exists i :: 0 <= i < |Shapes(sc, meshes, order)| && Shapes(sc, meshes, order)[i].transformIndex == key
  {
    var r := Shapes(sc, meshes, order);
    if order[0] == key {
      assert r[0].transformIndex == key;
    } else {
      ShapesCover(sc, meshes, order[1..], key);
      var rest := Shapes(sc, meshes, order[1..]);
      var i :| 0 <= i < |rest| && rest[i].transformIndex == key;
      if order[0] in sc.nodeIDToMaterialID {
        assert r[i + 1] == rest[i];
      } else {
        assert r[i] == rest[i];
      }
    }
  }

  /** Visiting each node once, no node gets two draw commands. */
  lemma {:induction false} ShapesDistinct(sc: Scene, meshes: seq<Mesh>, order: seq<uint32>)
    requires MeshesKnown(sc, meshes) && forall i :: 0 <= i < |order| ==> order[i] in sc.nodeIDToMeshID
    requires forall i, j :: 0 <= i < j < |order| ==> order[i] != order[j]
    ensures forall i, j :: 0 <= i < j < |Shapes(sc, meshes, order)| ==>
              Shapes(sc, meshes, order)[i].transformIndex != Shapes(sc, meshes, order)[j].transformIndex
  {
    if order != [] {
      var tail := order[1..];
      assert forall i :: 0 <= i < |tail| ==> tail[i] == order[i + 1];
      ShapesDistinct(sc, meshes, tail);
      var rest := Shapes(sc, meshes, tail);
      var r := Shapes(sc, meshes, order);
      if order[0] in sc.nodeIDToMaterialID {
        assert r == [Draw(sc, meshes, order[0])] + rest;
        assert order[0] !in tail;
        forall i, j | 0 <= i < j < |r|
          ensures r[i].transformIndex != r[j].transformIndex
        {
          assert r[j] == rest[j - 1];
          if i == 0 {
            assert rest[j - 1].transformIndex in tail;
          } else {
            assert r[i] == rest[i - 1];
          }
        }
      } else {
        assert r == rest;
      }
    }
  }

  /** `loadScene`'s draw data, whatever the iteration order: exactly one command for each node
      with both a mesh and a material, and none for any other node. */
  lemma ShapesOnePerNode(sc: Scene, meshes: seq<Mesh>, order: seq<uint32>)
    requires MeshesKnown(sc, meshes) && Enumerates(order, sc.nodeIDToMeshID)
    ensures forall i, j :: 0 <= i < j < |Shapes(sc, meshes, order)| ==>
              Shapes(sc, meshes, order)[i].transformIndex != Shapes(sc, meshes, order)[j].transformIndex
    ensures forall key :: key in sc.nodeIDToMeshID && key in sc.nodeIDToMaterialID <==>
              exists i :: 0 <= i < |Shapes(sc, meshes, order)| && Shapes(sc, meshes, order)[i].transformIndex == key
    ensures forall i :: 0 <= i < |Shapes(sc, meshes, order)| ==>
              Shapes(sc, meshes, order)[i] == Draw(sc, meshes, Shapes(sc, meshes, order)[i].transformIndex)
  {
    ShapesDistinct(sc, meshes, order);
    forall key | key in sc.nodeIDToMeshID && key in sc.nodeIDToMaterialID
      ensures exists i :: 0 <= i < |Shapes(sc, meshes, order)| && Shapes(sc, meshes, order)[i].transformIndex == key
    {
      ShapesCover(sc, meshes, order, key);
    }
  }

  /** Every draw command uses LOD 0 and starts at its mesh's offsets. */
  lemma ShapesStartAtMeshes(sc: Scene, meshes: seq<Mesh>, order: seq<uint32>)
    requires MeshesKnown(sc, meshes) && forall i :: 0 <= i < |order| ==> order[i] in sc.nodeIDToMeshID
    ensures forall i :: 0 <= i < |Shapes(sc, meshes, order)| ==>
              && Shapes(sc, meshes, order)[i].lod == 0 && Shapes(sc, meshes, order)[i].meshIndex < |meshes|
              && Shapes(sc, meshes, order)[i].indexOffset == meshes[Shapes(sc, meshes, order)[i].meshIndex].indexOffset
              && Shapes(sc, meshes, order)[i].vertexOffset == meshes[Shapes(sc, meshes, order)[i].meshIndex].vertexOffset
  {
  }

  // ---------------------------------------------------------------------------------------
  // Two iteration orders give the same commands

  ghost predicate Distinct<T>(s: seq<T>) {
    forall i, j :: 0 <= i < j < |s| ==> s[i] != s[j]
  }

  /** In a repetition-free sequence every element occurs once. */
  lemma {:induction false} DistinctOnce<T>(a: seq<T>, x: T)
    requires Distinct(a)
    ensures multiset(a)[x] == if x in a then 1 else 0
    decreases |a|
  {
    if a != [] {
      var a' := a[1..];
      assert a == [a[0]] + a';
      assert Distinct(a') by {
        assert forall i :: 0 <= i < |a'| ==> a'[i] == a[i + 1];
      }
      assert a[0] !in a' by {
        assert forall i :: 0 <= i < |a'| ==> a'[i] == a[i + 1];
      }
      DistinctOnce(a', x);
    }
  }

  /** Two repetition-free sequences with the same elements are permutations of each other. */
  lemma DistinctSameElements<T>(a: seq<T>, b: seq<T>)
    requires Distinct(a) && Distinct(b)
    requires forall x :: x in a <==> x in b
    ensures multiset(a) == multiset(b)
  {
    forall x
      ensures multiset(a)[x] == multiset(b)[x]
    {
      DistinctOnce(a, x);
      DistinctOnce(b, x);
    }
  }

  /** The draw commands do not depend on the hash map's iteration order, up to their order. */
  lemma ShapesOrderIndependent(sc: Scene, meshes: seq<Mesh>, o1: seq<uint32>, o2: seq<uint32>)
    requires MeshesKnown(sc, meshes) && Enumerates(o1, sc.nodeIDToMeshID) && Enumerates(o2, sc.nodeIDToMeshID)
    ensures multiset(Shapes(sc, meshes, o1)) == multiset(Shapes(sc, meshes, o2))
  {
    var r1, r2 := Shapes(sc, meshes, o1), Shapes(sc, meshes, o2);
    ShapesOnePerNode(sc, meshes, o1);
    ShapesOnePerNode(sc, meshes, o2);
    forall d
      ensures d in r1 <==> d in r2
    {
      if d in r1 {
        var i :| 0 <= i < |r1| && r1[i] == d;
        var j :| 0 <= j < |r2| && r2[j].transformIndex == d.transformIndex;
        assert r2[j] == d;
      }
      if d in r2 {
        var j :| 0 <= j < |r2| && r2[j] == d;
        var i :| 0 <= i < |r1| && r1[i].transformIndex == d.transformIndex;
        assert r1[i] == d;
      }
    }
    DistinctSameElements(r1, r2);
  }

  // ---------------------------------------------------------------------------------------
  // Forcing the global transforms

  /** The end of `loadScene`: `markAsChanged(mScene, 0)` on the freshly loaded scene, whose
      dirty lists are still empty, then `recalculateGlobalTransforms`. Node 0 must exist and
      be a root, as it is in every converted scene. */
  function RefreshTransforms(sc: Scene, mul: MatMul): (r: Scene)
    requires ParallelArrays(sc) && Layered(sc.hierarchy) && ParentsAbove(sc.hierarchy)
    requires 0 < |sc.hierarchy| && sc.hierarchy[0].level == 0 && sc.changedAtThisFrame == NoDirtyNodes()
    ensures ParallelArrays(r) && r.hierarchy == sc.hierarchy && r.localTransform == sc.localTransform
    ensures r.globalTransform[0] == sc.localTransform[0]
    ensures forall x :: x in Subtree(sc.hierarchy, 0) && x != 0 ==>
              0 <= x < |sc.hierarchy| && 0 <= sc.hierarchy[x].parent < |sc.hierarchy| &&
              r.globalTransform[x] == mul(r.globalTransform[sc.hierarchy[x].parent], sc.localTransform[x])
  {
    MarkRootThenRecalculate(sc, 0, mul);
    MarkRootThenRecalculatePropagates(sc, 0, mul);
    Recalculate(sc.(changedAtThisFrame := MarkAsChanged(sc.hierarchy, sc.changedAtThisFrame, 0)), mul)
  }

  // ---------------------------------------------------------------------------------------
  // A converted scene in the renderer

  /** The graph the converter builds meets what the refresh needs, every node with a mesh
      also has a material, and every such mesh is one of the converted descriptors: so each
      mesh sub-node gets exactly one draw command. */
  lemma ConvertedSceneLoads(meshes: seq<AiMesh>, root: AiNode, materialNames: seq<string>, descriptors: seq<Mesh>)
    requires NodeCount(root) <= 0x7FFF_FFFF && MeshRefsOk(root, |meshes|) && Height(root) < MAX_NODE_LEVEL
    requires |descriptors| == |meshes|
    ensures ParallelArrays(ConvertHierarchy(meshes, root, materialNames))
    ensures Layered(ConvertHierarchy(meshes, root, materialNames).hierarchy)
    ensures ParentsAbove(ConvertHierarchy(meshes, root, materialNames).hierarchy)
    ensures 0 < |ConvertHierarchy(meshes, root, materialNames).hierarchy|
    ensures ConvertHierarchy(meshes, root, materialNames).hierarchy[0].level == 0
    ensures ConvertHierarchy(meshes, root, materialNames).changedAtThisFrame == NoDirtyNodes()
    ensures forall key :: key in ConvertHierarchy(meshes, root, materialNames).nodeIDToMeshID <==>
              key in ConvertHierarchy(meshes, root, materialNames).nodeIDToMaterialID
    ensures MeshesKnown(ConvertHierarchy(meshes, root, materialNames), descriptors)
  {
    ConvertHierarchyWellFormed(meshes, root, materialNames);
    ConvertHierarchyRecords(meshes, root, materialNames);
    RecordsPaired(root, meshes);
    WellFormedParentsAbove(ConvertHierarchy(meshes, root, materialNames).hierarchy);
  }
}
