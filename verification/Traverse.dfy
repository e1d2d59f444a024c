/** `traverse` of the scene converter: the assimp node tree becomes the flat scene graph. Each
    source node becomes one node at its depth; one sub-node per attached mesh follows it, one
    level below; then come its children's subtrees, in order, one level below as well. */
module Traverse {
  import opened Wrappers
  import opened Bytes
  import opened Matrix
  import opened Text
  import opened Assimp
  import opened SceneGraph
  import opened SceneInvariants

  // ---------------------------------------------------------------------------------------
  // toMat4

  /** Entry (`row`, `col`) of a matrix stored row by row, as `aiMatrix4x4` is. */
  function RowMajor(m: Mat4, row: nat, col: nat): uint32
    requires row < 4 && col < 4
  {
    m[4 * row + col]
  }

  /** Entry (`row`, `col`) of a matrix stored column by column, as `glm::mat4` is. */
  function ColumnMajor(m: Mat4, row: nat, col: nat): uint32
    requires row < 4 && col < 4
  {
    m[4 * col + row]
  }

  /** `toMat4` as it returns: `mm[i][j] = from[i][j]` copies the sixteen words in place. As glm
      indexes column first and assimp row first, column `i` of the result holds row `i` of the
      source: the glm matrix is the transpose of the assimp one. */
  function ToMat4(from: Mat4): (r: Mat4)
    ensures forall row, col :: 0 <= row < 4 && 0 <= col < 4 ==> ColumnMajor(r, col, row) == RowMajor(from, row, col)
  {
    seq(16, k requires 0 <= k < 16 => from[4 * (k / 4) + k % 4])
  }

  /** The matrix `to` that `toMat4` builds only for its `assert(to == mm)`: `to[c][r]` is the
      source's row `r`, column `c`, so it is the same matrix in glm's storage. */
  function AssimpToGlm(from: Mat4): (r: Mat4)
    ensures forall row, col :: 0 <= row < 4 && 0 <= col < 4 ==> ColumnMajor(r, row, col) == RowMajor(from, row, col)
  {
    seq(16, k requires 0 <= k < 16 => from[4 * (k % 4) + k / 4])
  }

  /** The source matrix equals its transpose. */
  ghost predicate Symmetric(m: Mat4) {
    forall row, col :: 0 <= row < 4 && 0 <= col < 4 ==> RowMajor(m, row, col) == RowMajor(m, col, row)
  }

  /** The assert in `toMat4` holds exactly for symmetric source matrices: on any other the
      returned matrix is not the converted one. */
  lemma ToMat4AssertHolds(m: Mat4)
    ensures AssimpToGlm(m) == ToMat4(m) <==> Symmetric(m)
  {
    var a, b := AssimpToGlm(m), ToMat4(m);
    if a == b {
      forall row, col | 0 <= row < 4 && 0 <= col < 4
        ensures RowMajor(m, row, col) == RowMajor(m, col, row)
      {
        assert ColumnMajor(a, row, col) == ColumnMajor(b, row, col);
      }
    }
    if Symmetric(m) {
      forall k | 0 <= k < 16
        ensures a[k] == b[k]
      {
        assert RowMajor(m, k % 4, k / 4) == RowMajor(m, k / 4, k % 4);
      }
    }
  }

  /** A translation by `t` along x: assimp keeps it in row 0, column 3 (word 3). */
  function TranslationX(t: uint32): Mat4 {
    Identity()[3 := t]
  }

  /** The returned matrix carries a source translation in glm's bottom row (word 3) and leaves
      glm's translation column (word 12) at 0, where the converted one has it. */
  lemma TranslationTransposed(t: uint32)
    requires t != 0
    ensures ToMat4(TranslationX(t))[3] == t && ToMat4(TranslationX(t))[12] == 0
    ensures AssimpToGlm(TranslationX(t))[12] == t
    ensures !Symmetric(TranslationX(t))
  {
    assert RowMajor(TranslationX(t), 0, 3) == t;
    assert RowMajor(TranslationX(t), 3, 0) == 0;
  }

  // ---------------------------------------------------------------------------------------
  // The shape of the source tree

  /** The nodes `traverse` creates for `node`: itself, one per mesh, and its subtrees. */
  function NodeCount(node: AiNode): nat
    decreases node, |node.children| + 1
  {
    1 + |node.meshes| + SubtreeCount(node, 0)
  }

  /** The nodes created for the children of `node` from the `k`-th on. */
  function SubtreeCount(node: AiNode, k: nat): nat
    decreases node, |node.children| - k
  {
    if k >= |node.children| then 0 else NodeCount(node.children[k]) + SubtreeCount(node, k + 1)
  }

  function Max(a: nat, b: nat): nat { if a < b then b else a }

  /** How many levels below `node` the created nodes reach: one for mesh sub-nodes, one more
      than a child's height for each child. */
  function Height(node: AiNode): nat
    decreases node, |node.children| + 1
  {
    Max(if node.meshes == [] then 0 else 1, ChildHeight(node, 0))
  }

  function ChildHeight(node: AiNode, k: nat): nat
    decreases node, |node.children| - k
  {
    if k >= |node.children| then 0 else Max(1 + Height(node.children[k]), ChildHeight(node, k + 1))
  }

  /** Every mesh index of every node names a mesh of the scene; `(int)` of the index must stay
      non-negative for `mMeshes[meshID]` to be in bounds. */
  predicate MeshRefsOk(node: AiNode, meshCount: nat)
    decreases node
  {
    && (forall i :: 0 <= i < |node.meshes| ==> node.meshes[i] < meshCount && node.meshes[i] < 0x8000_0000)
    && (forall k :: 0 <= k < |node.children| ==> MeshRefsOk(node.children[k], meshCount))
  }

  // ---------------------------------------------------------------------------------------
  // What `addNode` needs along the way

  /** The first child of `n`, if any, carries a set `lastSibling` cache. */
  predicate FirstChildCached(h: seq<Hierarchy>, n: int)
    requires 0 <= n < |h|
  {
    var f := h[n].firstChild;
    f == -1 || (0 <= f < |h| && 0 <= h[f].lastSibling < |h|)
  }

  /** `addNode` sets the cache on a list's first child and moves it to every new tail, so in a
      graph built by `addNode` alone it never has to walk a chain. */
  predicate CachesSet(h: seq<Hierarchy>) {
    forall n :: 0 <= n < |h| ==> FirstChildCached(h, n)
  }

  lemma AddNodeKeepsCaches(sc: Scene, parent: int32, level: int32)
    requires ParallelArrays(sc) && CachesSet(sc.hierarchy) && |sc.hierarchy| < 0x7FFF_FFFF
    requires -1 <= parent < |sc.hierarchy|
    ensures parent > -1 ==> TailReachable(sc.hierarchy, parent as int)
    ensures CachesSet(AddNode(sc, parent, level).0.hierarchy)
  {
    var h := sc.hierarchy;
    assert parent > -1 ==> FirstChildCached(h, parent as int);
    var h' := AddNode(sc, parent, level).0.hierarchy;
    var node := |h|;
    if parent > -1 {
      var p := parent as int;
      var linked := LinkChild(h, p, node);
      assert h' == linked + [h'[node]];
      var s := h[p].firstChild;
      forall n | 0 <= n < |h'|
        ensures FirstChildCached(h', n)
      {
        if n < node {
          assert FirstChildCached(h, n);
          var f := h[n].firstChild;
          if s == -1 && n == p {
            assert h'[n].firstChild == node;
          } else {
            assert h'[n].firstChild == f;
            if f != -1 && f != s {
              assert h'[f].lastSibling == h[f].lastSibling;
            }
          }
        }
      }
    } else {
      forall n | 0 <= n < |h'|
        ensures FirstChildCached(h', n)
      {
        if n < node {
          assert FirstChildCached(h, n);
          assert h'[n] == h[n];
          var f := h[n].firstChild;
          if f != -1 {
            assert h'[f] == h[f];
          }
        }
      }
    }
  }

  /** What `traverse` needs of the scene it adds `count` nodes to, the first at `level`: the
      arrays in step, the caches set, and no `int` overflow of node ids or levels. */
  predicate Fits(sc: Scene, level: nat, count: nat) {
    && ParallelArrays(sc) && CachesSet(sc.hierarchy)
    && |sc.hierarchy| + count <= 0x7FFF_FFFF && level + count <= 0x7FFF_FFFF
  }

  // ---------------------------------------------------------------------------------------
  // traverse

  /** `scene.names.push_back(name)` and `nodeIDToNameID[node] = names.size()` before the push. */
  function NameNode(sc: Scene, node: uint32, name: string): (r: Scene)
    ensures r.names == sc.names + [name]
    ensures r.nodeIDToNameID == sc.nodeIDToNameID[node := U32(|sc.names|)]
  {
    sc.(names := sc.names + [name], nodeIDToNameID := sc.nodeIDToNameID[node := U32(|sc.names|)])
  }

  /** The name of the `i`-th mesh sub-node of a node called `name`. */
  function MeshNodeName(name: string, i: nat): string {
    name + "_Mesh_" + Decimal(i)
  }

  /** The first half of `traverse`: `addNode(scene, parent, atLevel)`, the node's name, and
      the loop over its meshes. */
  function NodeAndMeshes(sc: Scene, meshes: seq<AiMesh>, node: AiNode, parent: int, level: nat): (r: Scene)
    requires Fits(sc, level, NodeCount(node)) && -1 <= parent < |sc.hierarchy|
    requires MeshRefsOk(node, |meshes|)
    ensures ParallelArrays(r) && CachesSet(r.hierarchy)
    ensures |r.hierarchy| == |sc.hierarchy| + 1 + |node.meshes|
  {
    AddNodeKeepsCaches(sc, parent as int32, level as int32);
    var added := AddNode(sc, parent as int32, level as int32);
    MeshSubNodes(NameNode(added.0, added.1, node.name), meshes, node, added.1, level, 0)
  }

  /** `traverse(sourceScene, scene, node, parent, atLevel)`: the node numbered `newNodeID`,
      the scene's size before the call. */
  function TraverseNode(sc: Scene, meshes: seq<AiMesh>, node: AiNode, parent: int, level: nat): (r: Scene)
    requires Fits(sc, level, NodeCount(node)) && -1 <= parent < |sc.hierarchy|
    requires MeshRefsOk(node, |meshes|)
    ensures ParallelArrays(r) && CachesSet(r.hierarchy)
    ensures |r.hierarchy| == |sc.hierarchy| + NodeCount(node)
    decreases node, |node.children| + 2
  {
    TraverseChildren(Placed(sc, meshes, node, parent, level), meshes, node, |sc.hierarchy|, level + 1, 0)
  }

  /** After the mesh loop: the node's global transform is the identity and its local one the
      source node's transform, converted. */
  function Placed(sc: Scene, meshes: seq<AiMesh>, node: AiNode, parent: int, level: nat): (r: Scene)
    requires Fits(sc, level, NodeCount(node)) && -1 <= parent < |sc.hierarchy|
    requires MeshRefsOk(node, |meshes|)
    ensures ParallelArrays(r) && CachesSet(r.hierarchy)
    ensures r.hierarchy == NodeAndMeshes(sc, meshes, node, parent, level).hierarchy
  {
    var id := |sc.hierarchy|;
    var withMeshes := NodeAndMeshes(sc, meshes, node, parent, level);
    withMeshes.(globalTransform := withMeshes.globalTransform[id := Identity()],
                localTransform := withMeshes.localTransform[id := ToMat4(node.transform)])
  }

  /** The loop over `mMeshes` from the `i`-th on: each mesh gets a sub-node one level below
      `id`, named after the node and the mesh's position, mapped to the mesh and its material,
      with identity transforms. */
  function MeshSubNodes(sc: Scene, meshes: seq<AiMesh>, node: AiNode, id: nat, level: nat, i: nat): (r: Scene)
    requires ParallelArrays(sc) && CachesSet(sc.hierarchy) && id < |sc.hierarchy|
    requires i <= |node.meshes| && |sc.hierarchy| + (|node.meshes| - i) <= 0x7FFF_FFFF
    requires level + 1 <= 0x7FFF_FFFF
    requires MeshRefsOk(node, |meshes|)
    ensures ParallelArrays(r) && CachesSet(r.hierarchy)
    ensures |r.hierarchy| == |sc.hierarchy| + (|node.meshes| - i)
    decreases |node.meshes| - i
  {
    if i == |node.meshes| then sc
    else
      AddNodeKeepsCaches(sc, id as int32, (level + 1) as int32);
      var added := AddNode(sc, id as int32, (level + 1) as int32);
      var sub := added.1;
      var meshID := node.meshes[i];
      var named := NameNode(added.0, sub, MeshNodeName(node.name, i));
      var linked := named.(nodeIDToMeshID := named.nodeIDToMeshID[sub := meshID],
                           nodeIDToMaterialID := named.nodeIDToMaterialID[sub := meshes[meshID].materialIndex],
                           globalTransform := named.globalTransform[sub := Identity()],
                           localTransform := named.localTransform[sub := Identity()]);
      MeshSubNodes(linked, meshes, node, id, level, i + 1)
  }

  /** The loop over `mChildren` from the `k`-th on: each child's subtree goes under `id`, its
      root at `level`. */
  function TraverseChildren(sc: Scene, meshes: seq<AiMesh>, node: AiNode, id: nat, level: nat, k: nat): (r: Scene)
    requires Fits(sc, level, SubtreeCount(node, k)) && id < |sc.hierarchy|
    requires MeshRefsOk(node, |meshes|)
    ensures ParallelArrays(r) && CachesSet(r.hierarchy)
    ensures |r.hierarchy| == |sc.hierarchy| + SubtreeCount(node, k)
    decreases node, |node.children| - k
  {
    if k >= |node.children| then sc
    else
      var next := TraverseNode(sc, meshes, node.children[k], id, level);
      TraverseChildren(next, meshes, node, id, level, k + 1)
  }

  // ---------------------------------------------------------------------------------------
  // The level discipline

  /** `b` keeps every record of `a` where it was, with the same parent and level. */
  ghost predicate KeepsPlacement(a: seq<Hierarchy>, b: seq<Hierarchy>) {
    |a| <= |b| && forall x :: 0 <= x < |a| ==> b[x].parent == a[x].parent && b[x].level == a[x].level
  }

  /** `addNode` at a valid placement keeps the graph well formed and moves no existing node. */
  lemma AddNodeKeepsPlacement(sc: Scene, parent: int32, level: int32)
    requires ParallelArrays(sc) && WellFormed(sc.hierarchy) && |sc.hierarchy| < 0x7FFF_FFFF
    requires ValidPlacement(sc.hierarchy, parent as int, level as int)
    ensures parent > -1 ==> TailReachable(sc.hierarchy, parent as int)
    ensures WellFormed(AddNode(sc, parent, level).0.hierarchy)
    ensures KeepsPlacement(sc.hierarchy, AddNode(sc, parent, level).0.hierarchy)
  {
    AddNodePreservesWellFormed(sc, parent, level);
    if parent > -1 {
      AddChildRecords(sc, parent, level);
    }
  }

  /** `addNode` and the mesh loop: the node under `parent` at `level`, its sub-nodes under it
      one level below, the graph well formed and no existing node moved. */
  lemma {:induction false} NodeAndMeshesWellFormed(sc: Scene, meshes: seq<AiMesh>, node: AiNode, parent: int, level: nat)
    requires Fits(sc, level, NodeCount(node)) && -1 <= parent < |sc.hierarchy|
    requires MeshRefsOk(node, |meshes|)
    requires WellFormed(sc.hierarchy) && ValidPlacement(sc.hierarchy, parent, level)
    requires level + Height(node) < MAX_NODE_LEVEL
    ensures WellFormed(NodeAndMeshes(sc, meshes, node, parent, level).hierarchy)
    ensures KeepsPlacement(sc.hierarchy, NodeAndMeshes(sc, meshes, node, parent, level).hierarchy)
    ensures NodeAndMeshes(sc, meshes, node, parent, level).hierarchy[|sc.hierarchy|].parent == parent
    ensures NodeAndMeshes(sc, meshes, node, parent, level).hierarchy[|sc.hierarchy|].level == level
    ensures forall x :: |sc.hierarchy| < x < |NodeAndMeshes(sc, meshes, node, parent, level).hierarchy| ==>
              NodeAndMeshes(sc, meshes, node, parent, level).hierarchy[x].parent == |sc.hierarchy| &&
              NodeAndMeshes(sc, meshes, node, parent, level).hierarchy[x].level == level + 1
  {
    AddNodeKeepsPlacement(sc, parent as int32, level as int32);
    AddNodeKeepsCaches(sc, parent as int32, level as int32);
    var added := AddNode(sc, parent as int32, level as int32);
    SubNodesWellFormed(NameNode(added.0, added.1, node.name), meshes, node, added.1, level, 0);
  }

  /** Started at a valid placement, with every created level below MAX_NODE_LEVEL, `traverse`
      keeps the graph well formed, moves no existing node, and puts the source node's own node
      under `parent` at `level`. */
  lemma {:induction false} TraverseNodeWellFormed(sc: Scene, meshes: seq<AiMesh>, node: AiNode, parent: int, level: nat)
    requires Fits(sc, level, NodeCount(node)) && -1 <= parent < |sc.hierarchy|
    requires MeshRefsOk(node, |meshes|)
    requires WellFormed(sc.hierarchy) && ValidPlacement(sc.hierarchy, parent, level)
    requires level + Height(node) < MAX_NODE_LEVEL
    ensures WellFormed(TraverseNode(sc, meshes, node, parent, level).hierarchy)
    ensures KeepsPlacement(sc.hierarchy, TraverseNode(sc, meshes, node, parent, level).hierarchy)
    ensures TraverseNode(sc, meshes, node, parent, level).hierarchy[|sc.hierarchy|].parent == parent
    ensures TraverseNode(sc, meshes, node, parent, level).hierarchy[|sc.hierarchy|].level == level
    decreases node, |node.children| + 2
  {
    NodeAndMeshesWellFormed(sc, meshes, node, parent, level);
    var id := |sc.hierarchy|;
    var placed := Placed(sc, meshes, node, parent, level);
    ChildrenWellFormed(placed, meshes, node, id, level + 1, 0);
  }

  /** The mesh sub-nodes all sit directly under `id`, one level below it. */
  lemma {:induction false} SubNodesWellFormed(sc: Scene, meshes: seq<AiMesh>, node: AiNode, id: nat, level: nat, i: nat)
    requires ParallelArrays(sc) && CachesSet(sc.hierarchy) && id < |sc.hierarchy|
    requires i <= |node.meshes| && |sc.hierarchy| + (|node.meshes| - i) <= 0x7FFF_FFFF
    requires level + 1 <= 0x7FFF_FFFF
    requires MeshRefsOk(node, |meshes|)
    requires WellFormed(sc.hierarchy) && sc.hierarchy[id].level == level
    requires i < |node.meshes| ==> level + 1 < MAX_NODE_LEVEL
    ensures WellFormed(MeshSubNodes(sc, meshes, node, id, level, i).hierarchy)
    ensures KeepsPlacement(sc.hierarchy, MeshSubNodes(sc, meshes, node, id, level, i).hierarchy)
    ensures forall x :: |sc.hierarchy| <= x < |MeshSubNodes(sc, meshes, node, id, level, i).hierarchy| ==>
              MeshSubNodes(sc, meshes, node, id, level, i).hierarchy[x].parent == id &&
              MeshSubNodes(sc, meshes, node, id, level, i).hierarchy[x].level == level + 1
    decreases |node.meshes| - i
  {
    if i < |node.meshes| {
      AddNodeKeepsPlacement(sc, id as int32, (level + 1) as int32);
      AddNodeKeepsCaches(sc, id as int32, (level + 1) as int32);
      var added := AddNode(sc, id as int32, (level + 1) as int32);
      var sub := added.1;
      var meshID := node.meshes[i];
      var named := NameNode(added.0, sub, MeshNodeName(node.name, i));
      var linked := named.(nodeIDToMeshID := named.nodeIDToMeshID[sub := meshID],
                           nodeIDToMaterialID := named.nodeIDToMaterialID[sub := meshes[meshID].materialIndex],
                           globalTransform := named.globalTransform[sub := Identity()],
                           localTransform := named.localTransform[sub := Identity()]);
      SubNodesWellFormed(linked, meshes, node, id, level, i + 1);
    }
  }

  /** Each child's subtree hangs under `id`, its root at `level`, one below `id`'s level. */
  lemma {:induction false} ChildrenWellFormed(sc: Scene, meshes: seq<AiMesh>, node: AiNode, id: nat, level: nat, k: nat)
    requires Fits(sc, level, SubtreeCount(node, k)) && id < |sc.hierarchy|
    requires MeshRefsOk(node, |meshes|)
    requires WellFormed(sc.hierarchy) && sc.hierarchy[id].level + 1 == level
    requires level + ChildHeight(node, k) <= MAX_NODE_LEVEL
    ensures WellFormed(TraverseChildren(sc, meshes, node, id, level, k).hierarchy)
    ensures KeepsPlacement(sc.hierarchy, TraverseChildren(sc, meshes, node, id, level, k).hierarchy)
    decreases node, |node.children| - k
  {
    if k < |node.children| {
      TraverseNodeWellFormed(sc, meshes, node.children[k], id, level);
      var next := TraverseNode(sc, meshes, node.children[k], id, level);
      ChildrenWellFormed(next, meshes, node, id, level, k + 1);
    }
  }

  // ---------------------------------------------------------------------------------------
  // Child lists

  /** The ids `lo`, `lo + 1`, ..., `hi - 1`. */
  function Range(lo: int, hi: int): seq<int>
  {
    if lo >= hi then [] else seq(hi - lo, j requires 0 <= j < hi - lo => lo + j)
  }

  /** The ids of the children's own nodes, the `k`-th child's being `start`: each subtree takes
      as many consecutive ids as it has nodes. */
  function ChildRoots(node: AiNode, k: nat, start: int): seq<int>
  {
    if k >= |node.children| then []
    else seq(|node.children| - k, j requires 0 <= j < |node.children| - k =>
               start + (SubtreeCount(node, k) - SubtreeCount(node, k + j)))
  }

  /** After `addNode` and the mesh loop, the new node lists exactly its sub-nodes. */
  lemma {:induction false} NodeAndMeshesOwnList(sc: Scene, meshes: seq<AiMesh>, node: AiNode, parent: int, level: nat)
    requires Fits(sc, level, NodeCount(node)) && -1 <= parent < |sc.hierarchy|
    requires MeshRefsOk(node, |meshes|)
    requires WellFormed(sc.hierarchy) && ValidPlacement(sc.hierarchy, parent, level)
    requires level + Height(node) < MAX_NODE_LEVEL
    ensures ChildList(NodeAndMeshes(sc, meshes, node, parent, level).hierarchy, |sc.hierarchy|) ==
              Some(Range(|sc.hierarchy| + 1, |sc.hierarchy| + 1 + |node.meshes|))
  {
    AddNodeKeepsCaches(sc, parent as int32, level as int32);
    var added := AddNode(sc, parent as int32, level as int32);
    var named := NameNode(added.0, added.1, node.name);
    var done := MeshSubNodes(named, meshes, node, added.1, level, 0).hierarchy;
    assert ChildList(done, |sc.hierarchy|) == Some(Kids(named.hierarchy, |sc.hierarchy|) + Range(|named.hierarchy|, |done|))
        && Kids(named.hierarchy, |sc.hierarchy|) == [] by {
      AddNodeKeepsPlacement(sc, parent as int32, level as int32);
      if parent > -1 {
        AddChildLists(sc, parent as int32, level as int32);
      } else {
        AddRootChildLists(sc, level as int32);
      }
      assert added.1 == |sc.hierarchy| && named.hierarchy == added.0.hierarchy;
      SubNodesLists(named, meshes, node, added.1, level, 0);
    }
    assert |named.hierarchy| == |sc.hierarchy| + 1 && |done| == |sc.hierarchy| + 1 + |node.meshes|;
    assert Kids(named.hierarchy, |sc.hierarchy|) + Range(|named.hierarchy|, |done|) == Range(|sc.hierarchy| + 1, |sc.hierarchy| + 1 + |node.meshes|);
    assert NodeAndMeshes(sc, meshes, node, parent, level).hierarchy == done;
  }

  /** After `addNode` and the mesh loop, the parent's list has gained the new node at its end
      and no other existing list changed. */
  lemma {:induction false} NodeAndMeshesLists(sc: Scene, meshes: seq<AiMesh>, node: AiNode, parent: int, level: nat)
    requires Fits(sc, level, NodeCount(node)) && -1 <= parent < |sc.hierarchy|
    requires MeshRefsOk(node, |meshes|)
    requires WellFormed(sc.hierarchy) && ValidPlacement(sc.hierarchy, parent, level)
    requires level + Height(node) < MAX_NODE_LEVEL
    ensures parent > -1 ==> ChildList(NodeAndMeshes(sc, meshes, node, parent, level).hierarchy, parent) ==
                              Some(Kids(sc.hierarchy, parent) + [|sc.hierarchy|])
    ensures forall q :: 0 <= q < |sc.hierarchy| && q != parent ==>
              ChildList(NodeAndMeshes(sc, meshes, node, parent, level).hierarchy, q) == ChildList(sc.hierarchy, q)
  {
    AddNodeKeepsPlacement(sc, parent as int32, level as int32);
    AddNodeKeepsCaches(sc, parent as int32, level as int32);
    if parent > -1 {
      AddChildLists(sc, parent as int32, level as int32);
    } else {
      AddRootChildLists(sc, level as int32);
    }
    var added := AddNode(sc, parent as int32, level as int32);
    var named := NameNode(added.0, added.1, node.name);
    assert named.hierarchy == added.0.hierarchy;
    SubNodesLists(named, meshes, node, added.1, level, 0);
    assert NodeAndMeshes(sc, meshes, node, parent, level).hierarchy ==
           MeshSubNodes(named, meshes, node, added.1, level, 0).hierarchy;
  }

  /** The node made for a source node lists its mesh sub-nodes first and then its children's
      nodes, in source order. */
  lemma {:induction false} TraverseNodeOwnList(sc: Scene, meshes: seq<AiMesh>, node: AiNode, parent: int, level: nat)
    requires Fits(sc, level, NodeCount(node)) && -1 <= parent < |sc.hierarchy|
    requires MeshRefsOk(node, |meshes|)
    requires WellFormed(sc.hierarchy) && ValidPlacement(sc.hierarchy, parent, level)
    requires level + Height(node) < MAX_NODE_LEVEL
    ensures ChildList(TraverseNode(sc, meshes, node, parent, level).hierarchy, |sc.hierarchy|) ==
              Some(Range(|sc.hierarchy| + 1, |sc.hierarchy| + 1 + |node.meshes|) +
                   ChildRoots(node, 0, |sc.hierarchy| + 1 + |node.meshes|))
  {
    PlacedChildLists(sc, meshes, node, parent, level);
    PlacedOwnList(sc, meshes, node, parent, level);
    SameRoots(node, |Placed(sc, meshes, node, parent, level).hierarchy|, |sc.hierarchy| + 1 + |node.meshes|);
    AppendChildren(ChildList(TraverseNode(sc, meshes, node, parent, level).hierarchy, |sc.hierarchy|),
                   Kids(Placed(sc, meshes, node, parent, level).hierarchy, |sc.hierarchy|),
                   Range(|sc.hierarchy| + 1, |sc.hierarchy| + 1 + |node.meshes|),
                   ChildRoots(node, 0, |sc.hierarchy| + 1 + |node.meshes|));
  }

  /** The children's loop appends the children's roots to the node's list. */
  lemma {:induction false} PlacedChildLists(sc: Scene, meshes: seq<AiMesh>, node: AiNode, parent: int, level: nat)
    requires Fits(sc, level, NodeCount(node)) && -1 <= parent < |sc.hierarchy|
    requires MeshRefsOk(node, |meshes|)
    requires WellFormed(sc.hierarchy) && ValidPlacement(sc.hierarchy, parent, level)
    requires level + Height(node) < MAX_NODE_LEVEL
    ensures ChildList(Placed(sc, meshes, node, parent, level).hierarchy, |sc.hierarchy|).Some?
    ensures ChildList(TraverseNode(sc, meshes, node, parent, level).hierarchy, |sc.hierarchy|) ==
              Some(Kids(Placed(sc, meshes, node, parent, level).hierarchy, |sc.hierarchy|) +
                   ChildRoots(node, 0, |Placed(sc, meshes, node, parent, level).hierarchy|))
  {
    PlacedWellFormed(sc, meshes, node, parent, level);
    LoopLists(Placed(sc, meshes, node, parent, level), TraverseNode(sc, meshes, node, parent, level),
              meshes, node, |sc.hierarchy|, level + 1);
  }

  /** What the children's loop needs of the node's scene. */
  lemma {:induction false} PlacedWellFormed(sc: Scene, meshes: seq<AiMesh>, node: AiNode, parent: int, level: nat)
    requires Fits(sc, level, NodeCount(node)) && -1 <= parent < |sc.hierarchy|
    requires MeshRefsOk(node, |meshes|)
    requires WellFormed(sc.hierarchy) && ValidPlacement(sc.hierarchy, parent, level)
    requires level + Height(node) < MAX_NODE_LEVEL
    ensures Fits(Placed(sc, meshes, node, parent, level), level + 1, SubtreeCount(node, 0))
    ensures |sc.hierarchy| < |Placed(sc, meshes, node, parent, level).hierarchy|
    ensures WellFormed(Placed(sc, meshes, node, parent, level).hierarchy)
    ensures Placed(sc, meshes, node, parent, level).hierarchy[|sc.hierarchy|].level + 1 == level + 1
    ensures level + 1 + ChildHeight(node, 0) <= MAX_NODE_LEVEL
  {
    NodeAndMeshesWellFormed(sc, meshes, node, parent, level);
  }

  /** Before the children's loop the node lists its mesh sub-nodes. */
  lemma {:induction false} PlacedOwnList(sc: Scene, meshes: seq<AiMesh>, node: AiNode, parent: int, level: nat)
    requires Fits(sc, level, NodeCount(node)) && -1 <= parent < |sc.hierarchy|
    requires MeshRefsOk(node, |meshes|)
    requires WellFormed(sc.hierarchy) && ValidPlacement(sc.hierarchy, parent, level)
    requires level + Height(node) < MAX_NODE_LEVEL
    ensures ChildList(Placed(sc, meshes, node, parent, level).hierarchy, |sc.hierarchy|).Some?
    ensures Kids(Placed(sc, meshes, node, parent, level).hierarchy, |sc.hierarchy|) ==
              Range(|sc.hierarchy| + 1, |sc.hierarchy| + 1 + |node.meshes|)
    ensures |Placed(sc, meshes, node, parent, level).hierarchy| == |sc.hierarchy| + 1 + |node.meshes|
  {
    NodeAndMeshesOwnList(sc, meshes, node, parent, level);
  }

  lemma SameRange(lo: int, hi: int, lo': int, hi': int)
    requires lo == lo' && hi == hi'
    ensures Range(lo, hi) == Range(lo', hi')
  {
  }

  /** The parent's list gains the node made for a source node at its end, and no other
      existing list changes. */
  lemma {:induction false} TraverseNodeLists(sc: Scene, meshes: seq<AiMesh>, node: AiNode, parent: int, level: nat)
    requires Fits(sc, level, NodeCount(node)) && -1 <= parent < |sc.hierarchy|
    requires MeshRefsOk(node, |meshes|)
    requires WellFormed(sc.hierarchy) && ValidPlacement(sc.hierarchy, parent, level)
    requires level + Height(node) < MAX_NODE_LEVEL
    ensures parent > -1 ==> ChildList(TraverseNode(sc, meshes, node, parent, level).hierarchy, parent) ==
                              Some(Kids(sc.hierarchy, parent) + [|sc.hierarchy|])
    ensures forall q :: 0 <= q < |sc.hierarchy| && q != parent ==>
              ChildList(TraverseNode(sc, meshes, node, parent, level).hierarchy, q) == ChildList(sc.hierarchy, q)
    decreases node, |node.children| + 2
  {
    PlacedLists(sc, meshes, node, parent, level);
    PlacedOtherLists(sc, meshes, node, parent, level);
    ListsThrough(sc.hierarchy, Placed(sc, meshes, node, parent, level).hierarchy,
                 TraverseNode(sc, meshes, node, parent, level).hierarchy, parent);
  }

  /** The children's loop changes no list of the node's scene but the node's own. */
  lemma {:induction false} PlacedOtherLists(sc: Scene, meshes: seq<AiMesh>, node: AiNode, parent: int, level: nat)
    requires Fits(sc, level, NodeCount(node)) && -1 <= parent < |sc.hierarchy|
    requires MeshRefsOk(node, |meshes|)
    requires WellFormed(sc.hierarchy) && ValidPlacement(sc.hierarchy, parent, level)
    requires level + Height(node) < MAX_NODE_LEVEL
    ensures |sc.hierarchy| < |Placed(sc, meshes, node, parent, level).hierarchy|
    ensures forall q :: 0 <= q < |Placed(sc, meshes, node, parent, level).hierarchy| && q != |sc.hierarchy| ==>
              ChildList(TraverseNode(sc, meshes, node, parent, level).hierarchy, q) ==
                ChildList(Placed(sc, meshes, node, parent, level).hierarchy, q)
    decreases node, |node.children| + 1, 1
  {
    PlacedWellFormed(sc, meshes, node, parent, level);
    LoopLists(Placed(sc, meshes, node, parent, level), TraverseNode(sc, meshes, node, parent, level),
              meshes, node, |sc.hierarchy|, level + 1);
  }

  /** `ChildrenLists` for the whole loop, on the scene it starts from and the one it yields. */
  lemma {:induction false} LoopLists(sc: Scene, done: Scene, meshes: seq<AiMesh>, node: AiNode, id: nat, level: nat)
    requires Fits(sc, level, SubtreeCount(node, 0)) && id < |sc.hierarchy|
    requires MeshRefsOk(node, |meshes|)
    requires WellFormed(sc.hierarchy) && sc.hierarchy[id].level + 1 == level
    requires level + ChildHeight(node, 0) <= MAX_NODE_LEVEL
    requires done == TraverseChildren(sc, meshes, node, id, level, 0)
    ensures ChildList(done.hierarchy, id) == Some(Kids(sc.hierarchy, id) + ChildRoots(node, 0, |sc.hierarchy|))
    ensures forall q :: 0 <= q < |sc.hierarchy| && q != id ==> ChildList(done.hierarchy, q) == ChildList(sc.hierarchy, q)
    decreases node, |node.children| + 1, 0
  {
    ChildrenLists(sc, meshes, node, id, level, 0);
  }

  /** `NodeAndMeshesLists` for the scene once the node's transforms are set. */
  lemma {:induction false} PlacedLists(sc: Scene, meshes: seq<AiMesh>, node: AiNode, parent: int, level: nat)
    requires Fits(sc, level, NodeCount(node)) && -1 <= parent < |sc.hierarchy|
    requires MeshRefsOk(node, |meshes|)
    requires WellFormed(sc.hierarchy) && ValidPlacement(sc.hierarchy, parent, level)
    requires level + Height(node) < MAX_NODE_LEVEL
    ensures parent > -1 ==> ChildList(sc.hierarchy, parent).Some?
    ensures parent > -1 ==> ChildList(Placed(sc, meshes, node, parent, level).hierarchy, parent) ==
                              Some(Kids(sc.hierarchy, parent) + [|sc.hierarchy|])
    ensures forall q :: 0 <= q < |sc.hierarchy| && q != parent ==>
              ChildList(Placed(sc, meshes, node, parent, level).hierarchy, q) == ChildList(sc.hierarchy, q)
  {
    NodeAndMeshesLists(sc, meshes, node, parent, level);
  }

  /** The lists the node's own step left are kept by its children's loop, which only
      touches the node's list. */
  lemma ListsThrough(h0: seq<Hierarchy>, h1: seq<Hierarchy>, h2: seq<Hierarchy>, parent: int)
    requires -1 <= parent < |h0| < |h1| <= |h2|
    requires parent > -1 ==> ChildList(h0, parent).Some? && ChildList(h1, parent) == Some(Kids(h0, parent) + [|h0|])
    requires forall q :: 0 <= q < |h0| && q != parent ==> ChildList(h1, q) == ChildList(h0, q)
    requires forall q :: 0 <= q < |h1| && q != |h0| ==> ChildList(h2, q) == ChildList(h1, q)
    ensures parent > -1 ==> ChildList(h2, parent) == Some(Kids(h0, parent) + [|h0|])
    ensures forall q :: 0 <= q < |h0| && q != parent ==> ChildList(h2, q) == ChildList(h0, q)
  {
  }

  lemma {:induction false} SameRoots(node: AiNode, start: int, start': int)
    requires start == start'
    ensures ChildRoots(node, 0, start) == ChildRoots(node, 0, start')
  {
  }

  /** A list that held `mine` and then gained `rest` is `mine + rest`. */
  lemma AppendChildren(list: Option<seq<int>>, kids: seq<int>, mine: seq<int>, rest: seq<int>)
    requires kids == mine && list == Some(kids + rest)
    ensures list == Some(mine + rest)
  {
  }

  lemma ChildRootsCons(node: AiNode, k: nat, start: int, next: int)
    requires k < |node.children| && next == start + NodeCount(node.children[k])
    ensures ChildRoots(node, k, start) == [start] + ChildRoots(node, k + 1, next)
  {
    assert SubtreeCount(node, k) == NodeCount(node.children[k]) + SubtreeCount(node, k + 1);
    assert forall j :: 1 <= j < |node.children| - k ==>
             ChildRoots(node, k, start)[j] == ChildRoots(node, k + 1, next)[j - 1];
  }

  /** A list that gained `n` and then `rest` gained `[n] + rest`. */
  lemma AppendThen(list: Option<seq<int>>, grown: seq<int>, kids: seq<int>, n: int, rest: seq<int>, whole: seq<int>)
    requires grown == kids + [n] && list == Some(grown + rest) && whole == [n] + rest
    ensures list == Some(kids + whole)
  {
    assert (kids + [n]) + rest == kids + ([n] + rest);
  }

  /** A list that gained `n` and then `n + 1`, ..., `hi - 1` gained `n`, ..., `hi - 1`. */
  lemma AppendThenRange(list: Option<seq<int>>, grown: seq<int>, kids: seq<int>, n: int, hi: int)
    requires n < hi && grown == kids + [n] && list == Some(grown + Range(n + 1, hi))
    ensures list == Some(kids + Range(n, hi))
  {
    assert [n] + Range(n + 1, hi) == Range(n, hi);
    assert (kids + [n]) + Range(n + 1, hi) == kids + ([n] + Range(n + 1, hi));
  }

  /** The mesh sub-nodes are appended to `id`'s list in order; no other existing list changes. */
  lemma {:induction false} SubNodesLists(sc: Scene, meshes: seq<AiMesh>, node: AiNode, id: nat, level: nat, i: nat)
    requires ParallelArrays(sc) && CachesSet(sc.hierarchy) && id < |sc.hierarchy|
    requires i <= |node.meshes| && |sc.hierarchy| + (|node.meshes| - i) <= 0x7FFF_FFFF
    requires level + 1 <= 0x7FFF_FFFF
    requires MeshRefsOk(node, |meshes|)
    requires WellFormed(sc.hierarchy) && sc.hierarchy[id].level == level
    requires i < |node.meshes| ==> level + 1 < MAX_NODE_LEVEL
    ensures ChildList(MeshSubNodes(sc, meshes, node, id, level, i).hierarchy, id) ==
              Some(Kids(sc.hierarchy, id) + Range(|sc.hierarchy|, |MeshSubNodes(sc, meshes, node, id, level, i).hierarchy|))
    ensures forall q :: 0 <= q < |sc.hierarchy| && q != id ==>
              ChildList(MeshSubNodes(sc, meshes, node, id, level, i).hierarchy, q) == ChildList(sc.hierarchy, q)
    decreases |node.meshes| - i
  {
    var h := sc.hierarchy;
    if i < |node.meshes| {
      AddNodeKeepsPlacement(sc, id as int32, (level + 1) as int32);
      AddNodeKeepsCaches(sc, id as int32, (level + 1) as int32);
      AddChildLists(sc, id as int32, (level + 1) as int32);
      var added := AddNode(sc, id as int32, (level + 1) as int32);
      var sub := added.1;
      var meshID := node.meshes[i];
      var named := NameNode(added.0, sub, MeshNodeName(node.name, i));
      var linked := named.(nodeIDToMeshID := named.nodeIDToMeshID[sub := meshID],
                           nodeIDToMaterialID := named.nodeIDToMaterialID[sub := meshes[meshID].materialIndex],
                           globalTransform := named.globalTransform[sub := Identity()],
                           localTransform := named.localTransform[sub := Identity()]);
      assert MeshSubNodes(sc, meshes, node, id, level, i) == MeshSubNodes(linked, meshes, node, id, level, i + 1);
      SubNodesLists(linked, meshes, node, id, level, i + 1);
      var r := MeshSubNodes(linked, meshes, node, id, level, i + 1).hierarchy;
      AppendThenRange(ChildList(r, id), Kids(linked.hierarchy, id), Kids(h, id), |h|, |r|);
    } else {
      assert MeshSubNodes(sc, meshes, node, id, level, i) == sc;
      assert ChildList(h, id) == Some(Kids(h, id));
      assert Kids(h, id) + Range(|h|, |h|) == Kids(h, id);
    }
  }

  /** The children's nodes are appended to `id`'s list in order; no other existing list
      changes. */
  lemma {:induction false} ChildrenLists(sc: Scene, meshes: seq<AiMesh>, node: AiNode, id: nat, level: nat, k: nat)
    requires Fits(sc, level, SubtreeCount(node, k)) && id < |sc.hierarchy|
    requires MeshRefsOk(node, |meshes|)
    requires WellFormed(sc.hierarchy) && sc.hierarchy[id].level + 1 == level
    requires level + ChildHeight(node, k) <= MAX_NODE_LEVEL
    ensures ChildList(TraverseChildren(sc, meshes, node, id, level, k).hierarchy, id) ==
              Some(Kids(sc.hierarchy, id) + ChildRoots(node, k, |sc.hierarchy|))
    ensures forall q :: 0 <= q < |sc.hierarchy| && q != id ==>
              ChildList(TraverseChildren(sc, meshes, node, id, level, k).hierarchy, q) == ChildList(sc.hierarchy, q)
    decreases node, |node.children| - k, 1
  {
    if k < |node.children| {
      ChildrenListsStep(sc, meshes, node, id, level, k);
    } else {
      assert TraverseChildren(sc, meshes, node, id, level, k) == sc;
      assert ChildList(sc.hierarchy, id) == Some(Kids(sc.hierarchy, id));
      assert Kids(sc.hierarchy, id) + ChildRoots(node, k, |sc.hierarchy|) == Kids(sc.hierarchy, id);
    }
  }

  /** `ChildrenLists` for a loop that has a child left. */
  lemma {:induction false} ChildrenListsStep(sc: Scene, meshes: seq<AiMesh>, node: AiNode, id: nat, level: nat, k: nat)
    requires Fits(sc, level, SubtreeCount(node, k)) && id < |sc.hierarchy|
    requires MeshRefsOk(node, |meshes|)
    requires WellFormed(sc.hierarchy) && sc.hierarchy[id].level + 1 == level
    requires level + ChildHeight(node, k) <= MAX_NODE_LEVEL && k < |node.children|
    ensures ChildList(TraverseChildren(sc, meshes, node, id, level, k).hierarchy, id) ==
              Some(Kids(sc.hierarchy, id) + ChildRoots(node, k, |sc.hierarchy|))
    ensures forall q :: 0 <= q < |sc.hierarchy| && q != id ==>
              ChildList(TraverseChildren(sc, meshes, node, id, level, k).hierarchy, q) == ChildList(sc.hierarchy, q)
    decreases node, |node.children| - k, 0
  {
    ChildStepReady(sc, meshes, node, id, level, k);
    TraverseNodeLists(sc, meshes, node.children[k], id, level);
    var next := TraverseNode(sc, meshes, node.children[k], id, level);
    ChildrenLists(next, meshes, node, id, level, k + 1);
    ChildRootsCons(node, k, |sc.hierarchy|, |next.hierarchy|);
    AppendThen(ChildList(TraverseChildren(next, meshes, node, id, level, k + 1).hierarchy, id),
               Kids(next.hierarchy, id), Kids(sc.hierarchy, id), |sc.hierarchy|,
               ChildRoots(node, k + 1, |next.hierarchy|), ChildRoots(node, k, |sc.hierarchy|));
  }

  /** One step of the children's loop: the child's subtree can be built under `id`, and what
      follows it can be built after it. */
  lemma {:induction false} ChildStepReady(sc: Scene, meshes: seq<AiMesh>, node: AiNode, id: nat, level: nat, k: nat)
    requires Fits(sc, level, SubtreeCount(node, k)) && id < |sc.hierarchy|
    requires MeshRefsOk(node, |meshes|)
    requires WellFormed(sc.hierarchy) && sc.hierarchy[id].level + 1 == level
    requires level + ChildHeight(node, k) <= MAX_NODE_LEVEL
    requires k < |node.children|
    ensures Fits(sc, level, NodeCount(node.children[k])) && -1 <= id < |sc.hierarchy|
    ensures MeshRefsOk(node.children[k], |meshes|)
    ensures ValidPlacement(sc.hierarchy, id, level)
    ensures level + Height(node.children[k]) < MAX_NODE_LEVEL
    ensures Fits(TraverseNode(sc, meshes, node.children[k], id, level), level, SubtreeCount(node, k + 1))
    ensures id < |TraverseNode(sc, meshes, node.children[k], id, level).hierarchy|
    ensures WellFormed(TraverseNode(sc, meshes, node.children[k], id, level).hierarchy)
    ensures TraverseNode(sc, meshes, node.children[k], id, level).hierarchy[id].level + 1 == level
    ensures level + ChildHeight(node, k + 1) <= MAX_NODE_LEVEL
    ensures TraverseChildren(sc, meshes, node, id, level, k) ==
              TraverseChildren(TraverseNode(sc, meshes, node.children[k], id, level), meshes, node, id, level, k + 1)
    ensures |TraverseNode(sc, meshes, node.children[k], id, level).hierarchy| == |sc.hierarchy| + NodeCount(node.children[k])
  {
    TraverseNodeWellFormed(sc, meshes, node.children[k], id, level);
  }

  // ---------------------------------------------------------------------------------------
  // What is recorded for each created node

  /** What `traverse` records for one created node: its name, its mesh and material (set for
      a mesh sub-node only), and its local transform. Every created node's global transform is
      the identity. */
  datatype Record = Record(name: string, mesh: Option<uint32>, material: Option<uint32>, local: Mat4)

  /** The record of the `i`-th mesh sub-node of `node`. */
  function SubRecord(node: AiNode, meshes: seq<AiMesh>, i: nat): Record
    requires MeshRefsOk(node, |meshes|) && i < |node.meshes|
  {
    Record(MeshNodeName(node.name, i), Some(node.meshes[i]), Some(meshes[node.meshes[i]].materialIndex), Identity())
  }

  /** The records of the mesh sub-nodes of `node` from the `i`-th on. */
  function SubRecords(node: AiNode, meshes: seq<AiMesh>, i: nat): (r: seq<Record>)
    requires MeshRefsOk(node, |meshes|) && i <= |node.meshes|
    ensures |r| == |node.meshes| - i
  {
    seq(|node.meshes| - i, j requires 0 <= j < |node.meshes| - i => SubRecord(node, meshes, i + j))
  }

  /** The node of `node` itself and its mesh sub-nodes. */
  function HeadRecords(node: AiNode, meshes: seq<AiMesh>): (r: seq<Record>)
    requires MeshRefsOk(node, |meshes|)
    ensures |r| == 1 + |node.meshes|
  {
    [Record(node.name, None, None, ToMat4(node.transform))] + SubRecords(node, meshes, 0)
  }

  /** The records of every node created for `node`, in the order of their ids: a pre-order
      walk of the source tree in which each node is followed by its mesh sub-nodes. */
  function Records(node: AiNode, meshes: seq<AiMesh>): (r: seq<Record>)
    requires MeshRefsOk(node, |meshes|)
    ensures |r| == NodeCount(node)
    decreases node, |node.children| + 1
  {
    HeadRecords(node, meshes) + ChildRecords(node, meshes, 0)
  }

  /** The records of the subtrees of the children of `node` from the `k`-th on. */
  function ChildRecords(node: AiNode, meshes: seq<AiMesh>, k: nat): (r: seq<Record>)
    requires MeshRefsOk(node, |meshes|)
    ensures |r| == SubtreeCount(node, k)
    decreases node, |node.children| - k
  {
    if k >= |node.children| then [] else Records(node.children[k], meshes) + ChildRecords(node, meshes, k + 1)
  }

  function NamesOf(rs: seq<Record>): seq<string> {
    seq(|rs|, j requires 0 <= j < |rs| => rs[j].name)
  }

  function LocalsOf(rs: seq<Record>): seq<Mat4> {
    seq(|rs|, j requires 0 <= j < |rs| => rs[j].local)
  }

  function MeshesOf(rs: seq<Record>): seq<Option<uint32>> {
    seq(|rs|, j requires 0 <= j < |rs| => rs[j].mesh)
  }

  function MaterialsOf(rs: seq<Record>): seq<Option<uint32>> {
    seq(|rs|, j requires 0 <= j < |rs| => rs[j].material)
  }

  function Identities(n: nat): seq<Mat4> {
    seq(n, _ => Identity())
  }

  /** The name ids `base`, `base + 1`, ... of `n` nodes named in turn, as 32-bit values. */
  function Sequential(base: nat, n: nat): seq<Option<uint32>> {
    seq(n, j requires 0 <= j < n => Some(U32(base + j)))
  }

  /** The map from the ids `lo`, `lo + 1`, ... to the values present in `vs`. */
  function Keyed(lo: nat, vs: seq<Option<uint32>>): map<uint32, uint32> {
    map x: uint32 | lo <= x < lo + |vs| && At(lo, vs, x).Some? :: At(lo, vs, x).value
  }

  /** The value `vs` holds for id `x`, the first entry being for `lo`. */
  function At(lo: nat, vs: seq<Option<uint32>>, x: int): Option<uint32> {
    if lo <= x < lo + |vs| then vs[x - lo] else None
  }

  /** `b` is `a` with the nodes recorded in `rs` appended: their names pushed in order and
      indexed by the new ids, their local transforms, identity global transforms, and the
      mesh and material of each mesh sub-node; nothing `a` held changes. */
  predicate Appended(a: Scene, b: Scene, rs: seq<Record>) {
    && |b.hierarchy| == |a.hierarchy| + |rs|
    && b.names == a.names + NamesOf(rs)
    && b.localTransform == a.localTransform + LocalsOf(rs)
    && b.globalTransform == a.globalTransform + Identities(|rs|)
    && b.nodeIDToNameID == a.nodeIDToNameID + Keyed(|a.hierarchy|, Sequential(|a.names|, |rs|))
    && b.nodeIDToMeshID == a.nodeIDToMeshID + Keyed(|a.hierarchy|, MeshesOf(rs))
    && b.nodeIDToMaterialID == a.nodeIDToMaterialID + Keyed(|a.hierarchy|, MaterialsOf(rs))
    && b.materialNames == a.materialNames && b.changedAtThisFrame == a.changedAtThisFrame
  }

  lemma ProjectionsJoin(r1: seq<Record>, r2: seq<Record>)
    ensures NamesOf(r1 + r2) == NamesOf(r1) + NamesOf(r2)
    ensures LocalsOf(r1 + r2) == LocalsOf(r1) + LocalsOf(r2)
    ensures MeshesOf(r1 + r2) == MeshesOf(r1) + MeshesOf(r2)
    ensures MaterialsOf(r1 + r2) == MaterialsOf(r1) + MaterialsOf(r2)
    ensures Identities(|r1 + r2|) == Identities(|r1|) + Identities(|r2|)
  {
  }

  lemma SequentialJoin(base: nat, n1: nat, n2: nat)
    ensures Sequential(base, n1) + Sequential(base + n1, n2) == Sequential(base, n1 + n2)
  {
    var joined := Sequential(base, n1) + Sequential(base + n1, n2);
    assert forall j :: n1 <= j < n1 + n2 ==> joined[j] == Sequential(base + n1, n2)[j - n1];
  }

  /** Keying two runs one after the other is keying the joined run. */
  lemma KeyedJoin(m: map<uint32, uint32>, lo: nat, v1: seq<Option<uint32>>, v2: seq<Option<uint32>>)
    ensures (m + Keyed(lo, v1)) + Keyed(lo + |v1|, v2) == m + Keyed(lo, v1 + v2)
  {
    var l, r := (m + Keyed(lo, v1)) + Keyed(lo + |v1|, v2), m + Keyed(lo, v1 + v2);
    forall x: uint32
      ensures x in l <==> x in r
      ensures x in l ==> l[x] == r[x]
    {
      if lo + |v1| <= x < lo + |v1| + |v2| {
        assert At(lo, v1 + v2, x) == At(lo + |v1|, v2, x);
      } else if lo <= x < lo + |v1| {
        assert At(lo, v1 + v2, x) == At(lo, v1, x);
      }
    }
  }

  /** One node appended: its name pushed and indexed, its transforms pushed, and its mesh and
      material set when it has them. */
  lemma AppendedOne(a: Scene, b: Scene, rec: Record)
    requires |b.hierarchy| == |a.hierarchy| + 1 && |a.hierarchy| < TWO_32
    requires b.names == a.names + [rec.name]
    requires b.localTransform == a.localTransform + [rec.local]
    requires b.globalTransform == a.globalTransform + [Identity()]
    requires b.nodeIDToNameID == a.nodeIDToNameID[|a.hierarchy| := U32(|a.names|)]
    requires b.nodeIDToMeshID == if rec.mesh.Some? then a.nodeIDToMeshID[|a.hierarchy| := rec.mesh.value] else a.nodeIDToMeshID
    requires b.nodeIDToMaterialID ==
               if rec.material.Some? then a.nodeIDToMaterialID[|a.hierarchy| := rec.material.value] else a.nodeIDToMaterialID
    requires b.materialNames == a.materialNames && b.changedAtThisFrame == a.changedAtThisFrame
    ensures Appended(a, b, [rec])
  {
    assert NamesOf([rec]) == [rec.name] && LocalsOf([rec]) == [rec.local];
    assert Identities(1) == [Identity()];
    assert Sequential(|a.names|, 1) == [Some(U32(|a.names|))];
    KeyedOne(a.nodeIDToNameID, |a.hierarchy|, Some(U32(|a.names|)));
    assert MeshesOf([rec]) == [rec.mesh] && MaterialsOf([rec]) == [rec.material];
    KeyedOne(a.nodeIDToMeshID, |a.hierarchy|, rec.mesh);
    KeyedOne(a.nodeIDToMaterialID, |a.hierarchy|, rec.material);
  }

  /** Keying a run of one value sets that one id, if the value is present. */
  lemma KeyedOne(m: map<uint32, uint32>, lo: nat, v: Option<uint32>)
    requires lo < TWO_32
    ensures m + Keyed(lo, [v]) == if v.Some? then m[lo := v.value] else m
  {
    var l, r := m + Keyed(lo, [v]), if v.Some? then m[lo := v.value] else m;
    forall x: uint32
      ensures x in l <==> x in r
      ensures x in l ==> l[x] == r[x]
    {
      if x == lo {
        assert At(lo, [v], x) == v;
      }
    }
  }

  /** Appending `r1` and then `r2` appends `r1 + r2`. */
  lemma AppendedTrans(a: Scene, b: Scene, c: Scene, r1: seq<Record>, r2: seq<Record>)
    requires Appended(a, b, r1) && Appended(b, c, r2)
    ensures Appended(a, c, r1 + r2)
  {
    ProjectionsJoin(r1, r2);
    SequentialJoin(|a.names|, |r1|, |r2|);
    SeqStep(a.names, b.names, c.names, NamesOf(r1), NamesOf(r2), NamesOf(r1 + r2));
    SeqStep(a.localTransform, b.localTransform, c.localTransform, LocalsOf(r1), LocalsOf(r2), LocalsOf(r1 + r2));
    SeqStep(a.globalTransform, b.globalTransform, c.globalTransform, Identities(|r1|), Identities(|r2|), Identities(|r1 + r2|));
    KeyedStep(a.nodeIDToNameID, b.nodeIDToNameID, c.nodeIDToNameID, |a.hierarchy|, |b.hierarchy|,
              Sequential(|a.names|, |r1|), Sequential(|b.names|, |r2|), Sequential(|a.names|, |r1 + r2|));
    KeyedStep(a.nodeIDToMeshID, b.nodeIDToMeshID, c.nodeIDToMeshID, |a.hierarchy|, |b.hierarchy|,
              MeshesOf(r1), MeshesOf(r2), MeshesOf(r1 + r2));
    KeyedStep(a.nodeIDToMaterialID, b.nodeIDToMaterialID, c.nodeIDToMaterialID, |a.hierarchy|, |b.hierarchy|,
              MaterialsOf(r1), MaterialsOf(r2), MaterialsOf(r1 + r2));
  }

  lemma SeqStep<T>(a: seq<T>, b: seq<T>, c: seq<T>, x: seq<T>, y: seq<T>, z: seq<T>)
    requires b == a + x && c == b + y && z == x + y
    ensures c == a + z
  {
    assert (a + x) + y == a + (x + y);
  }

  lemma KeyedStep(ma: map<uint32, uint32>, mb: map<uint32, uint32>, mc: map<uint32, uint32>, lo: nat, mid: nat,
                  v1: seq<Option<uint32>>, v2: seq<Option<uint32>>, whole: seq<Option<uint32>>)
    requires mb == ma + Keyed(lo, v1) && mid == lo + |v1| && mc == mb + Keyed(mid, v2) && whole == v1 + v2
    ensures mc == ma + Keyed(lo, whole)
  {
    KeyedJoin(ma, lo, v1, v2);
  }

  /** Setting the first appended node's transforms after the fact: its local transform is
      replaced, its global one is the identity again. */
  lemma AppendedRetransform(a: Scene, b: Scene, rs: seq<Record>, t: Mat4)
    requires Appended(a, b, rs) && rs != [] && ParallelArrays(a)
    ensures Appended(a, b.(localTransform := b.localTransform[|a.hierarchy| := t],
                           globalTransform := b.globalTransform[|a.hierarchy| := Identity()]),
                     rs[0 := rs[0].(local := t)])
  {
    var rs' := rs[0 := rs[0].(local := t)];
    assert NamesOf(rs') == NamesOf(rs) && MeshesOf(rs') == MeshesOf(rs) && MaterialsOf(rs') == MaterialsOf(rs);
    assert b.localTransform[|a.hierarchy| := t] == a.localTransform + LocalsOf(rs');
    assert b.globalTransform[|a.hierarchy| := Identity()] == b.globalTransform;
  }

  lemma {:induction false} SubRecordsCons(node: AiNode, meshes: seq<AiMesh>, i: nat)
    requires MeshRefsOk(node, |meshes|) && i < |node.meshes|
    ensures SubRecords(node, meshes, i) == [SubRecord(node, meshes, i)] + SubRecords(node, meshes, i + 1)
  {
    assert forall j :: 1 <= j < |node.meshes| - i ==>
             SubRecords(node, meshes, i)[j] == SubRecords(node, meshes, i + 1)[j - 1];
  }

  /** The mesh loop appends one sub-node per remaining mesh, named `<name>_Mesh_<i>` and
      mapped to the mesh and its material. */
  lemma {:induction false} SubNodesAppended(sc: Scene, meshes: seq<AiMesh>, node: AiNode, id: nat, level: nat, i: nat)
    requires ParallelArrays(sc) && CachesSet(sc.hierarchy) && id < |sc.hierarchy|
    requires i <= |node.meshes| && |sc.hierarchy| + (|node.meshes| - i) <= 0x7FFF_FFFF
    requires level + 1 <= 0x7FFF_FFFF
    requires MeshRefsOk(node, |meshes|)
    ensures Appended(sc, MeshSubNodes(sc, meshes, node, id, level, i), SubRecords(node, meshes, i))
    decreases |node.meshes| - i
  {
    if i < |node.meshes| {
      AddNodeKeepsCaches(sc, id as int32, (level + 1) as int32);
      var added := AddNode(sc, id as int32, (level + 1) as int32);
      var sub := added.1;
      var meshID := node.meshes[i];
      var named := NameNode(added.0, sub, MeshNodeName(node.name, i));
      var linked := named.(nodeIDToMeshID := named.nodeIDToMeshID[sub := meshID],
                           nodeIDToMaterialID := named.nodeIDToMaterialID[sub := meshes[meshID].materialIndex],
                           globalTransform := named.globalTransform[sub := Identity()],
                           localTransform := named.localTransform[sub := Identity()]);
      assert MeshSubNodes(sc, meshes, node, id, level, i) == MeshSubNodes(linked, meshes, node, id, level, i + 1);
      AppendedOne(sc, linked, SubRecord(node, meshes, i));
      SubNodesAppended(linked, meshes, node, id, level, i + 1);
      AppendedTrans(sc, linked, MeshSubNodes(linked, meshes, node, id, level, i + 1),
                    [SubRecord(node, meshes, i)], SubRecords(node, meshes, i + 1));
      SubRecordsCons(node, meshes, i);
    } else {
      assert MeshSubNodes(sc, meshes, node, id, level, i) == sc;
      AppendedNothing(sc);
    }
  }

  lemma AppendedNothing(sc: Scene)
    ensures Appended(sc, sc, [])
  {
    assert NamesOf([]) == [] && LocalsOf([]) == [] && Identities(0) == [];
    assert Keyed(|sc.hierarchy|, Sequential(|sc.names|, 0)) == map[];
    assert Keyed(|sc.hierarchy|, MeshesOf([])) == map[] && Keyed(|sc.hierarchy|, MaterialsOf([])) == map[];
  }

  /** `addNode`, the name and the mesh loop append the node, with an identity local transform
      for now, and its sub-nodes. */
  lemma {:induction false} NodeAndMeshesAppended(sc: Scene, meshes: seq<AiMesh>, node: AiNode, parent: int, level: nat)
    requires Fits(sc, level, NodeCount(node)) && -1 <= parent < |sc.hierarchy|
    requires MeshRefsOk(node, |meshes|)
    ensures Appended(sc, NodeAndMeshes(sc, meshes, node, parent, level),
                     [Record(node.name, None, None, Identity())] + SubRecords(node, meshes, 0))
  {
    AddNodeKeepsCaches(sc, parent as int32, level as int32);
    var added := AddNode(sc, parent as int32, level as int32);
    var named := NameNode(added.0, added.1, node.name);
    AppendedOne(sc, named, Record(node.name, None, None, Identity()));
    SubNodesAppended(named, meshes, node, added.1, level, 0);
    AppendedTrans(sc, named, MeshSubNodes(named, meshes, node, added.1, level, 0),
                  [Record(node.name, None, None, Identity())], SubRecords(node, meshes, 0));
  }

  /** Before the children's loop, the node and its sub-nodes are appended with the node's
      converted transform. */
  lemma {:induction false} PlacedAppended(sc: Scene, meshes: seq<AiMesh>, node: AiNode, parent: int, level: nat)
    requires Fits(sc, level, NodeCount(node)) && -1 <= parent < |sc.hierarchy|
    requires MeshRefsOk(node, |meshes|)
    ensures Appended(sc, Placed(sc, meshes, node, parent, level), HeadRecords(node, meshes))
    ensures Fits(Placed(sc, meshes, node, parent, level), level + 1, SubtreeCount(node, 0))
    ensures |sc.hierarchy| < |Placed(sc, meshes, node, parent, level).hierarchy|
  {
    NodeAndMeshesAppended(sc, meshes, node, parent, level);
    var rs := [Record(node.name, None, None, Identity())] + SubRecords(node, meshes, 0);
    AppendedRetransform(sc, NodeAndMeshes(sc, meshes, node, parent, level), rs, ToMat4(node.transform));
    assert rs[0 := rs[0].(local := ToMat4(node.transform))] == HeadRecords(node, meshes);
  }

  /** `traverse` appends exactly the records of the source node's subtree, in pre-order. */
  lemma {:induction false} TraverseNodeAppended(sc: Scene, meshes: seq<AiMesh>, node: AiNode, parent: int, level: nat)
    requires Fits(sc, level, NodeCount(node)) && -1 <= parent < |sc.hierarchy|
    requires MeshRefsOk(node, |meshes|)
    ensures Appended(sc, TraverseNode(sc, meshes, node, parent, level), Records(node, meshes))
    decreases node, |node.children| + 2
  {
    PlacedAppended(sc, meshes, node, parent, level);
    var placed := Placed(sc, meshes, node, parent, level);
    ChildrenAppended(placed, meshes, node, |sc.hierarchy|, level + 1, 0);
    AppendedTrans(sc, placed, TraverseChildren(placed, meshes, node, |sc.hierarchy|, level + 1, 0),
                  HeadRecords(node, meshes), ChildRecords(node, meshes, 0));
  }

  /** The children's loop appends the children's subtrees one after the other. */
  lemma {:induction false} ChildrenAppended(sc: Scene, meshes: seq<AiMesh>, node: AiNode, id: nat, level: nat, k: nat)
    requires Fits(sc, level, SubtreeCount(node, k)) && id < |sc.hierarchy|
    requires MeshRefsOk(node, |meshes|)
    ensures Appended(sc, TraverseChildren(sc, meshes, node, id, level, k), ChildRecords(node, meshes, k))
    decreases node, |node.children| - k, 1
  {
    if k < |node.children| {
      ChildrenAppendedStep(sc, meshes, node, id, level, k);
    } else {
      assert TraverseChildren(sc, meshes, node, id, level, k) == sc;
      AppendedNothing(sc);
    }
  }

  /** `ChildrenAppended` for a loop that has a child left. */
  lemma {:induction false} ChildrenAppendedStep(sc: Scene, meshes: seq<AiMesh>, node: AiNode, id: nat, level: nat, k: nat)
    requires Fits(sc, level, SubtreeCount(node, k)) && id < |sc.hierarchy|
    requires MeshRefsOk(node, |meshes|)
    requires k < |node.children|
    ensures Appended(sc, TraverseChildren(sc, meshes, node, id, level, k), ChildRecords(node, meshes, k))
    decreases node, |node.children| - k, 0
  {
    ChildStepFits(sc, meshes, node, id, level, k);
    TraverseNodeAppended(sc, meshes, node.children[k], id, level);
    var next := TraverseNode(sc, meshes, node.children[k], id, level);
    ChildrenAppended(next, meshes, node, id, level, k + 1);
    AppendedTrans(sc, next, TraverseChildren(next, meshes, node, id, level, k + 1),
                  Records(node.children[k], meshes), ChildRecords(node, meshes, k + 1));
  }

  /** One step of the children's loop, as far as sizes go. */
  lemma {:induction false} ChildStepFits(sc: Scene, meshes: seq<AiMesh>, node: AiNode, id: nat, level: nat, k: nat)
    requires Fits(sc, level, SubtreeCount(node, k)) && id < |sc.hierarchy|
    requires MeshRefsOk(node, |meshes|)
    requires k < |node.children|
    ensures Fits(sc, level, NodeCount(node.children[k])) && -1 <= id < |sc.hierarchy|
    ensures MeshRefsOk(node.children[k], |meshes|)
    ensures Fits(TraverseNode(sc, meshes, node.children[k], id, level), level, SubtreeCount(node, k + 1))
    ensures id < |TraverseNode(sc, meshes, node.children[k], id, level).hierarchy|
    ensures TraverseChildren(sc, meshes, node, id, level, k) ==
              TraverseChildren(TraverseNode(sc, meshes, node.children[k], id, level), meshes, node, id, level, k + 1)
    ensures ChildRecords(node, meshes, k) == Records(node.children[k], meshes) + ChildRecords(node, meshes, k + 1)
  {
  }

  /** The sub-nodes of one node get distinct names. */
  lemma MeshNodeNamesDistinct(name: string, i: nat, j: nat)
    ensures MeshNodeName(name, i) == MeshNodeName(name, j) <==> i == j
  {
    var p := name + "_Mesh_";
    if MeshNodeName(name, i) == MeshNodeName(name, j) {
      assert Decimal(i) == (p + Decimal(i))[|p|..];
      assert Decimal(j) == (p + Decimal(j))[|p|..];
      DecimalInjective(i, j);
    }
  }

  // ---------------------------------------------------------------------------------------
  // The whole hierarchy

  /** Step 4 of `processScene`: `traverse(scene, ourScene, scene->mRootNode, -1, 0)` into a
      scene that so far holds only the material names. */
  function ConvertHierarchy(meshes: seq<AiMesh>, root: AiNode, materialNames: seq<string>): (r: Scene)
    requires NodeCount(root) <= 0x7FFF_FFFF && MeshRefsOk(root, |meshes|)
    ensures ParallelArrays(r) && |r.hierarchy| == NodeCount(root)
  {
    TraverseNode(EmptyScene().(materialNames := materialNames), meshes, root, -1, 0)
  }

  /** Node `x` of the converted scene is the `x`-th record of the pre-order walk: it is named
      `names[x]`, carries that record's mesh and material (mesh sub-nodes only) and local
      transform, and has an identity global transform. No other key is mapped. */
  lemma ConvertHierarchyRecords(meshes: seq<AiMesh>, root: AiNode, materialNames: seq<string>)
    requires NodeCount(root) <= 0x7FFF_FFFF && MeshRefsOk(root, |meshes|)
    ensures ConvertHierarchy(meshes, root, materialNames).names == NamesOf(Records(root, meshes))
    ensures ConvertHierarchy(meshes, root, materialNames).localTransform == LocalsOf(Records(root, meshes))
    ensures ConvertHierarchy(meshes, root, materialNames).globalTransform == Identities(NodeCount(root))
    ensures forall x: uint32 :: x in ConvertHierarchy(meshes, root, materialNames).nodeIDToNameID <==> x < NodeCount(root)
    ensures forall x: uint32 :: x in ConvertHierarchy(meshes, root, materialNames).nodeIDToNameID ==>
              ConvertHierarchy(meshes, root, materialNames).nodeIDToNameID[x] == x
    ensures forall x: uint32 :: x in ConvertHierarchy(meshes, root, materialNames).nodeIDToMeshID <==>
              x < NodeCount(root) && Records(root, meshes)[x].mesh.Some?
    ensures forall x: uint32 :: x in ConvertHierarchy(meshes, root, materialNames).nodeIDToMeshID ==>
              Records(root, meshes)[x].mesh == Some(ConvertHierarchy(meshes, root, materialNames).nodeIDToMeshID[x])
    ensures forall x: uint32 :: x in ConvertHierarchy(meshes, root, materialNames).nodeIDToMaterialID <==>
              x < NodeCount(root) && Records(root, meshes)[x].material.Some?
    ensures forall x: uint32 :: x in ConvertHierarchy(meshes, root, materialNames).nodeIDToMaterialID ==>
              Records(root, meshes)[x].material == Some(ConvertHierarchy(meshes, root, materialNames).nodeIDToMaterialID[x])
    ensures ConvertHierarchy(meshes, root, materialNames).materialNames == materialNames
    ensures ConvertHierarchy(meshes, root, materialNames).changedAtThisFrame == NoDirtyNodes()
  {
    var start := EmptyScene().(materialNames := materialNames);
    TraverseNodeAppended(start, meshes, root, -1, 0);
    AppendedToEmpty(start, ConvertHierarchy(meshes, root, materialNames), Records(root, meshes));
  }

  /** `getNodeName` on the converted scene: an `int` node id names the node after the record of
      the pre-order walk at that position, and an id outside the graph gets the empty name. */
  lemma ConvertedNodeName(meshes: seq<AiMesh>, root: AiNode, materialNames: seq<string>, x: int)
    requires NodeCount(root) <= 0x7FFF_FFFF && MeshRefsOk(root, |meshes|)
    requires -0x8000_0000 <= x < 0x8000_0000
    ensures var sc := ConvertHierarchy(meshes, root, materialNames);
            var key := x % TWO_32;
            key in sc.nodeIDToNameID && BitsInt32(sc.nodeIDToNameID[key]) > -1
            ==> BitsInt32(sc.nodeIDToNameID[key]) < |sc.names|
    ensures GetNodeName(ConvertHierarchy(meshes, root, materialNames), x) ==
              if 0 <= x < NodeCount(root) then Records(root, meshes)[x].name else ""
  {
    ConvertHierarchyRecords(meshes, root, materialNames);
    NameOfRecords(ConvertHierarchy(meshes, root, materialNames), Records(root, meshes), x);
  }

  /** `ConvertedNodeName` on plain values: names taken from the records, and name ids that
      are the node ids themselves for every node of the graph. */
  lemma NameOfRecords(sc: Scene, rs: seq<Record>, x: int)
    requires |rs| <= 0x7FFF_FFFF && sc.names == NamesOf(rs)
    requires forall k: uint32 :: k in sc.nodeIDToNameID <==> k < |rs|
    requires forall k: uint32 :: k in sc.nodeIDToNameID ==> sc.nodeIDToNameID[k] == k
    requires -0x8000_0000 <= x < 0x8000_0000
    ensures var key := x % TWO_32;
            key in sc.nodeIDToNameID && BitsInt32(sc.nodeIDToNameID[key]) > -1
            ==> BitsInt32(sc.nodeIDToNameID[key]) < |sc.names|
    ensures GetNodeName(sc, x) == if 0 <= x < |rs| then rs[x].name else ""
  {
    var key := x % TWO_32;
    assert 0 <= x ==> key == x;
    assert x < 0 ==> key >= 0x8000_0000;
    if key in sc.nodeIDToNameID {
      assert sc.nodeIDToNameID[key] == key < |rs|;
      assert BitsInt32(sc.nodeIDToNameID[key]) == key;
    }
  }

  /** What `Appended` says when the scene appended to is empty. */
  lemma AppendedToEmpty(a: Scene, b: Scene, rs: seq<Record>)
    requires Appended(a, b, rs)
    requires a.hierarchy == [] && a.names == [] && a.localTransform == [] && a.globalTransform == []
    requires a.nodeIDToNameID == map[] && a.nodeIDToMeshID == map[] && a.nodeIDToMaterialID == map[]
    ensures b.names == NamesOf(rs)
    ensures b.localTransform == LocalsOf(rs)
    ensures b.globalTransform == Identities(|rs|)
    ensures forall x: uint32 :: x in b.nodeIDToNameID <==> x < |rs|
    ensures forall x: uint32 :: x in b.nodeIDToNameID ==> b.nodeIDToNameID[x] == x
    ensures forall x: uint32 :: x in b.nodeIDToMeshID <==> x < |rs| && rs[x].mesh.Some?
    ensures forall x: uint32 :: x in b.nodeIDToMeshID ==> rs[x].mesh == Some(b.nodeIDToMeshID[x])
    ensures forall x: uint32 :: x in b.nodeIDToMaterialID <==> x < |rs| && rs[x].material.Some?
    ensures forall x: uint32 :: x in b.nodeIDToMaterialID ==> rs[x].material == Some(b.nodeIDToMaterialID[x])
    ensures b.materialNames == a.materialNames && b.changedAtThisFrame == a.changedAtThisFrame
  {
    assert b.names == [] + NamesOf(rs) && b.localTransform == [] + LocalsOf(rs);
    assert b.globalTransform == [] + Identities(|rs|);
    KeyedFromEmpty(b.nodeIDToNameID, Sequential(0, |rs|));
    forall x: uint32 | x in b.nodeIDToNameID
      ensures b.nodeIDToNameID[x] == x
    {
      assert Sequential(0, |rs|)[x] == Some(U32(x));
    }
    KeyedFromEmpty(b.nodeIDToMeshID, MeshesOf(rs));
    KeyedFromEmpty(b.nodeIDToMaterialID, MaterialsOf(rs));
  }

  lemma KeyedFromEmpty(m: map<uint32, uint32>, vs: seq<Option<uint32>>)
    requires m == map[] + Keyed(0, vs)
    ensures forall x: uint32 :: x in m <==> x < |vs| && vs[x].Some?
    ensures forall x: uint32 :: x in m ==> vs[x] == Some(m[x])
  {
    assert forall x: uint32 :: x < |vs| ==> At(0, vs, x) == vs[x];
  }

  /** The converted graph is well formed when the tree is no deeper than MAX_NODE_LEVEL
      allows: node 0 is the root at level 0, and it lists its mesh sub-nodes and then its
      children's nodes. */
  lemma ConvertHierarchyWellFormed(meshes: seq<AiMesh>, root: AiNode, materialNames: seq<string>)
    requires NodeCount(root) <= 0x7FFF_FFFF && MeshRefsOk(root, |meshes|)
    requires Height(root) < MAX_NODE_LEVEL
    ensures WellFormed(ConvertHierarchy(meshes, root, materialNames).hierarchy)
    ensures ConvertHierarchy(meshes, root, materialNames).hierarchy[0].parent == -1
    ensures ConvertHierarchy(meshes, root, materialNames).hierarchy[0].level == 0
    ensures ChildList(ConvertHierarchy(meshes, root, materialNames).hierarchy, 0) ==
              Some(Range(1, 1 + |root.meshes|) + ChildRoots(root, 0, 1 + |root.meshes|))
  {
    var start := EmptyScene().(materialNames := materialNames);
    assert WellFormed(start.hierarchy) && ValidPlacement(start.hierarchy, -1, 0);
    RootConverted(start, ConvertHierarchy(meshes, root, materialNames), meshes, root);
  }

  /** `ConvertHierarchyWellFormed` for any empty scene to start from. */
  lemma RootConverted(start: Scene, done: Scene, meshes: seq<AiMesh>, root: AiNode)
    requires Fits(start, 0, NodeCount(root)) && |start.hierarchy| == 0 && MeshRefsOk(root, |meshes|)
    requires WellFormed(start.hierarchy) && ValidPlacement(start.hierarchy, -1, 0)
    requires Height(root) < MAX_NODE_LEVEL
    requires done == TraverseNode(start, meshes, root, -1, 0)
    ensures WellFormed(done.hierarchy) && done.hierarchy[0].parent == -1 && done.hierarchy[0].level == 0
    ensures ChildList(done.hierarchy, 0) == Some(Range(1, 1 + |root.meshes|) + ChildRoots(root, 0, 1 + |root.meshes|))
  {
    TraverseNodeWellFormed(start, meshes, root, -1, 0);
    TraverseNodeOwnList(start, meshes, root, -1, 0);
  }

  /** A record has a mesh exactly when it has a material, and its mesh is one of `n`. */
  predicate PairedRefs(rs: seq<Record>, n: nat) {
    forall j :: 0 <= j < |rs| ==>
      (rs[j].mesh.Some? <==> rs[j].material.Some?) && (rs[j].mesh.Some? ==> rs[j].mesh.value < n)
  }

  lemma PairedRefsJoin(r1: seq<Record>, r2: seq<Record>, n: nat)
    requires PairedRefs(r1, n) && PairedRefs(r2, n)
    ensures PairedRefs(r1 + r2, n)
  {
    assert forall j :: |r1| <= j < |r1 + r2| ==> (r1 + r2)[j] == r2[j - |r1|];
  }

  /** Only mesh sub-nodes carry a mesh, and each also carries that mesh's material. */
  lemma {:induction false} RecordsPaired(node: AiNode, meshes: seq<AiMesh>)
    requires MeshRefsOk(node, |meshes|)
    ensures PairedRefs(Records(node, meshes), |meshes|)
    decreases node, |node.children| + 1
  {
    assert PairedRefs(HeadRecords(node, meshes), |meshes|);
    ChildRecordsPaired(node, meshes, 0);
    PairedRefsJoin(HeadRecords(node, meshes), ChildRecords(node, meshes, 0), |meshes|);
  }

  lemma {:induction false} ChildRecordsPaired(node: AiNode, meshes: seq<AiMesh>, k: nat)
    requires MeshRefsOk(node, |meshes|)
    ensures PairedRefs(ChildRecords(node, meshes, k), |meshes|)
    decreases node, |node.children| - k
  {
    if k < |node.children| {
      RecordsPaired(node.children[k], meshes);
      ChildRecordsPaired(node, meshes, k + 1);
      PairedRefsJoin(Records(node.children[k], meshes), ChildRecords(node, meshes, k + 1), |meshes|);
    }
  }
}
