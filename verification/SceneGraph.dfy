/** The data-oriented scene graph: nodes are indices into parallel arrays of local transforms,
    global transforms and hierarchy records; children of a node form a singly linked list
    through `firstChild` / `nextSibling`. */
module SceneGraph {
  import opened Bytes
  import opened Matrix
  import opened Wrappers

  /** Number of per-level dirty lists, hence the bound on node levels. */
  const MAX_NODE_LEVEL: int := 16

  /** One hierarchy record. `-1` means "none" in `parent` (the node is a root), `firstChild`
      and `nextSibling`. `lastSibling` is an append cache kept on a first child: `-1`, or the
      tail of its parent's child list. `level` is the depth, stored as given and never checked. */
  datatype Hierarchy = Hierarchy(
    parent: int32,
    firstChild: int32,
    nextSibling: int32,
    lastSibling: int32,
    level: int32)

  /** `changedAtThisFrame`: one list of node indices per level. Entries are node indices,
      which stay below 2^31 because `addNode` never grows the graph past that. */
  type DirtyLists = s: seq<seq<int>> | |s| == MAX_NODE_LEVEL witness seq(MAX_NODE_LEVEL, _ => [])

  datatype Scene = Scene(
    localTransform: seq<Mat4>,
    globalTransform: seq<Mat4>,
    changedAtThisFrame: DirtyLists,
    hierarchy: seq<Hierarchy>,
    // absence of a key means the node has no such property
    nodeIDToMeshID: map<uint32, uint32>,
    nodeIDToMaterialID: map<uint32, uint32>,
    nodeIDToNameID: map<uint32, uint32>,
    names: seq<string>,
    materialNames: seq<string>)

  function NoDirtyNodes(): (r: DirtyLists)
    ensures forall l :: 0 <= l < MAX_NODE_LEVEL ==> r[l] == []
  {
    seq(MAX_NODE_LEVEL, _ => [])
  }

  /** A default-constructed `Scene`. */
  function EmptyScene(): Scene {
    Scene([], [], NoDirtyNodes(), [], map[], map[], map[], [], [])
  }

  /** A node's identity is its index into all three arrays. */
  predicate ParallelArrays(sc: Scene) {
    |sc.localTransform| == |sc.hierarchy| && |sc.globalTransform| == |sc.hierarchy|
  }

  function Last(xs: seq<int>): int
    requires xs != []
  {
    xs[|xs| - 1]
  }

  // ---------------------------------------------------------------------------------------
  // Sibling chains

  /** The nodes visited by following `nextSibling` from `start` until `-1`, or None when the
      chain leaves the array or is longer than `fuel` (in particular when it is cyclic). */
  function Siblings(h: seq<Hierarchy>, start: int, fuel: nat): (r: Option<seq<int>>)
    ensures r.Some? ==> |r.value| <= fuel
    ensures r.Some? ==> (r.value == [] <==> start == -1)
    ensures r.Some? && r.value != [] ==> r.value[0] == start
    ensures r.Some? ==> forall i :: 0 <= i < |r.value| ==> 0 <= r.value[i] < |h|
    ensures r.Some? ==> forall i :: 0 <= i < |r.value| - 1 ==> h[r.value[i]].nextSibling == r.value[i + 1]
    ensures r.Some? && r.value != [] ==> h[Last(r.value)].nextSibling == -1
    decreases fuel
  {
    if start == -1 then Some([])
    else if start < 0 || start >= |h| || fuel == 0 then None
    else
      match Siblings(h, h[start].nextSibling, fuel - 1)
      case None => None
      case Some(rest) => Some([start] + rest)
  }

  /** The child list of node `p`: `firstChild`, then the `nextSibling` chain. A chain without
      repetitions inside the array has at most `|h|` elements, so `|h|` is enough fuel. */
  function ChildList(h: seq<Hierarchy>, p: int): Option<seq<int>>
    requires 0 <= p < |h|
  {
    Siblings(h, h[p].firstChild, |h|)
  }

  function Kids(h: seq<Hierarchy>, p: int): seq<int>
    requires 0 <= p < |h| && ChildList(h, p).Some?
  {
    ChildList(h, p).value
  }

  /** The `for` loop of `addNode` that walks `nextSibling` to the tail of a chain. */
  function WalkToTail(h: seq<Hierarchy>, d: int, fuel: nat): (r: int)
    requires 0 <= d < |h| && Siblings(h, d, fuel).Some?
    ensures r == Last(Siblings(h, d, fuel).value)
    decreases fuel
  {
    if h[d].nextSibling == -1 then d else WalkToTail(h, h[d].nextSibling, fuel - 1)
  }

  /** A chain is unchanged in a graph that keeps the `nextSibling` of each of its nodes. */
  lemma {:induction false} SiblingsFrame(h: seq<Hierarchy>, h': seq<Hierarchy>, start: int, fuel: nat, fuel': nat,
                                         xs: seq<int>)
    requires Siblings(h, start, fuel) == Some(xs)
    requires fuel' >= |xs|
    requires forall i :: 0 <= i < |xs| ==> xs[i] < |h'| && h'[xs[i]].nextSibling == h[xs[i]].nextSibling
    ensures Siblings(h', start, fuel') == Some(xs)
    decreases fuel
  {
    if start != -1 {
      SiblingsUnfold(h, start, fuel);
      var rest := Siblings(h, h[start].nextSibling, fuel - 1).value;
      assert xs == [start] + rest;
      forall i | 0 <= i < |rest|
        ensures rest[i] < |h'| && h'[rest[i]].nextSibling == h[rest[i]].nextSibling
      {
        assert rest[i] == xs[i + 1];
      }
      SiblingsFrame(h, h', h[start].nextSibling, fuel - 1, fuel' - 1, rest);
      assert xs[0] == start;
      SiblingsStep(h', start, fuel');
    }
  }

  /** One step of a chain: `start` followed by the chain from its `nextSibling`. */
  lemma SiblingsStep(h: seq<Hierarchy>, start: int, fuel: nat)
    requires 0 <= start < |h| && fuel > 0
    requires Siblings(h, h[start].nextSibling, fuel - 1).Some?
    ensures Siblings(h, start, fuel) == Some([start] + Siblings(h, h[start].nextSibling, fuel - 1).value)
  {
  }

  lemma SiblingsUnfold(h: seq<Hierarchy>, start: int, fuel: nat)
    requires Siblings(h, start, fuel).Some? && start != -1
    ensures 0 <= start < |h| && fuel > 0 && Siblings(h, h[start].nextSibling, fuel - 1).Some?
    ensures Siblings(h, start, fuel).value == [start] + Siblings(h, h[start].nextSibling, fuel - 1).value
  {
  }

  /** Linking `node` behind the tail of a chain `xs` extends the chain by exactly `node`. */
  lemma {:induction false} SiblingsExtend(h: seq<Hierarchy>, h': seq<Hierarchy>, start: int, fuel: nat, fuel': nat,
                                          xs: seq<int>, node: int)
    requires Siblings(h, start, fuel) == Some(xs) && xs != []
    requires fuel' > |xs|
    requires 0 <= node < |h'| && h'[node].nextSibling == -1
    requires forall i :: 0 <= i < |xs| ==> xs[i] < |h'|
    requires forall i :: 0 <= i < |xs| - 1 ==> h'[xs[i]].nextSibling == h[xs[i]].nextSibling
    requires h'[Last(xs)].nextSibling == node
    ensures Siblings(h', start, fuel') == Some(xs + [node])
    decreases fuel
  {
    SiblingsUnfold(h, start, fuel);
    var next := h[start].nextSibling;
    var rest := Siblings(h, next, fuel - 1).value;
    if next == -1 {
      assert xs == [start];
      SiblingsStep(h', node, fuel' - 1);
      assert [node] + [] == [node];
      SiblingsStep(h', start, fuel');
    } else {
      assert xs == [start] + rest;
      assert |xs| > 1;
      forall i | 0 <= i < |rest|
        ensures rest[i] < |h'|
      {
        assert rest[i] == xs[i + 1];
      }
      forall i | 0 <= i < |rest| - 1
        ensures h'[rest[i]].nextSibling == h[rest[i]].nextSibling
      {
        assert rest[i] == xs[i + 1];
      }
      assert Last(rest) == Last(xs);
      SiblingsExtend(h, h', next, fuel - 1, fuel' - 1, rest, node);
      assert h'[start].nextSibling == next by { assert xs[0] == start; }
      SiblingsStep(h', start, fuel');
      assert [start] + (rest + [node]) == xs + [node];
    }
  }

  // ---------------------------------------------------------------------------------------
  // Well-formed graphs

  /** Parents are existing nodes or -1, levels index a dirty list. */
  ghost predicate RangesOk(h: seq<Hierarchy>) {
    forall n :: 0 <= n < |h| ==> -1 <= h[n].parent < |h| && 0 <= h[n].level < MAX_NODE_LEVEL
  }

  ghost predicate ChainsEnd(h: seq<Hierarchy>) {
    forall n :: 0 <= n < |h| ==> ChildList(h, n).Some?
  }

  /** Every listed child names the list owner as parent and sits one level below it. */
  ghost predicate ChildrenAgree(h: seq<Hierarchy>)
    requires ChainsEnd(h)
  {
    forall n, i :: 0 <= n < |h| && 0 <= i < |Kids(h, n)| ==>
      h[Kids(h, n)[i]].parent == n && h[Kids(h, n)[i]].level == h[n].level + 1
  }

  /** Every non-root is on its parent's child list. */
  ghost predicate ParentsList(h: seq<Hierarchy>)
    requires RangesOk(h) && ChainsEnd(h)
  {
    forall c {:trigger Kids(h, h[c].parent)} :: 0 <= c < |h| && h[c].parent >= 0 ==> c in Kids(h, h[c].parent)
  }

  ghost predicate RootsDetached(h: seq<Hierarchy>) {
    forall c :: 0 <= c < |h| && h[c].parent == -1 ==> h[c].level == 0 && h[c].nextSibling == -1
  }

  /** The `lastSibling` cache of a first child is unset or the tail of the child list. */
  ghost predicate CacheSound(h: seq<Hierarchy>)
    requires ChainsEnd(h)
  {
    forall p :: 0 <= p < |h| && Kids(h, p) != [] ==>
      h[Kids(h, p)[0]].lastSibling <= -1 || h[Kids(h, p)[0]].lastSibling == Last(Kids(h, p))
  }

  /** Child lists end, and children sit one level below their parent, below MAX_NODE_LEVEL:
      what a walk over a subtree needs in order to stay in bounds and terminate. */
  ghost predicate Layered(h: seq<Hierarchy>) {
    && RangesOk(h)
    && ChainsEnd(h)
    && ChildrenAgree(h)
  }

  /** The structural invariants of the graph: level discipline and sibling-chain integrity. */
  ghost predicate WellFormed(h: seq<Hierarchy>) {
    && Layered(h)
    && ParentsList(h)
    && RootsDetached(h)
    && CacheSound(h)
  }

  // ---------------------------------------------------------------------------------------
  // addNode

  /** What `addNode` needs to find the tail of `p`'s child list without leaving the array. */
  predicate TailReachable(h: seq<Hierarchy>, p: int)
    requires 0 <= p < |h|
  {
    var s := h[p].firstChild;
    s == -1 ||
    (0 <= s < |h| &&
     (if h[s].lastSibling > -1 then h[s].lastSibling < |h| else Siblings(h, s, |h|).Some?))
  }

  /** The tail `addNode` links behind: the cached `lastSibling`, or the end of the walk. */
  function TailOf(h: seq<Hierarchy>, s: int): (r: int)
    requires 0 <= s < |h|
    requires h[s].lastSibling > -1 ==> h[s].lastSibling < |h|
    requires h[s].lastSibling <= -1 ==> Siblings(h, s, |h|).Some?
    ensures 0 <= r < |h|
  {
    if h[s].lastSibling > -1 then h[s].lastSibling as int else WalkToTail(h, s, |h|)
  }

  /** The record updates `addNode` makes to existing nodes when `p >= 0`. */
  function LinkChild(h: seq<Hierarchy>, p: int, node: int32): (r: seq<Hierarchy>)
    requires 0 <= p < |h| && TailReachable(h, p)
    ensures |r| == |h|
  {
    var s := h[p].firstChild;
    if s == -1 then h[p := h[p].(firstChild := node)]
    else
      var dest := TailOf(h, s);
      var h1 := h[dest := h[dest].(nextSibling := node)];
      h1[s := h1[s].(lastSibling := node)]
  }

  /** `addNode`: appends a node under `parent` (or as a root when `parent <= -1`) and returns
      the updated scene together with the new node's index. */
  function AddNode(sc: Scene, parent: int32, level: int32): (r: (Scene, int))
    requires ParallelArrays(sc)
    requires |sc.hierarchy| < 0x7FFF_FFFF
    requires parent < |sc.hierarchy|
    requires parent > -1 ==> TailReachable(sc.hierarchy, parent as int)
    ensures r.1 == |sc.hierarchy|
    ensures ParallelArrays(r.0) && |r.0.hierarchy| == |sc.hierarchy| + 1
    ensures r.0.localTransform == sc.localTransform + [Identity()]
    ensures r.0.globalTransform == sc.globalTransform + [Identity()]
    ensures r.0.hierarchy[r.1].parent == parent && r.0.hierarchy[r.1].level == level
    ensures r.0.hierarchy[r.1].firstChild == -1 && r.0.hierarchy[r.1].nextSibling == -1
    ensures r.0.hierarchy[r.1].lastSibling ==
              (if parent > -1 && sc.hierarchy[parent].firstChild == -1 then r.1 else -1)
    ensures parent <= -1 ==> r.0.hierarchy[..r.1] == sc.hierarchy
    ensures r.0.changedAtThisFrame == sc.changedAtThisFrame
    ensures r.0.nodeIDToMeshID == sc.nodeIDToMeshID && r.0.nodeIDToMaterialID == sc.nodeIDToMaterialID
    ensures r.0.nodeIDToNameID == sc.nodeIDToNameID
    ensures r.0.names == sc.names && r.0.materialNames == sc.materialNames
  {
    var h := sc.hierarchy;
    var node: int32 := |h|;
    var linked := if parent > -1 then LinkChild(h, parent as int, node) else h;
    var lastSibling: int32 := if parent > -1 && h[parent].firstChild == -1 then node else -1;
    var record := Hierarchy(parent, -1, -1, lastSibling, level);
    (sc.(localTransform := sc.localTransform + [Identity()],
         globalTransform := sc.globalTransform + [Identity()],
         hierarchy := linked + [record]),
     node as int)
  }

  /** The level `addNode` must be given for the graph to stay well formed. */
  ghost predicate ValidPlacement(h: seq<Hierarchy>, parent: int, level: int) {
    if parent == -1 then level == 0
    else 0 <= parent < |h| && level == h[parent].level + 1 && level < MAX_NODE_LEVEL
  }

  // ---------------------------------------------------------------------------------------
  // getNodeName

  /** `getNodeName`: the node's name, or the empty string when it has none. The node index is
      converted to the `uint32_t` key and the stored name id back to `int`, as in C++. */
  function GetNodeName(sc: Scene, node: int): (r: string)
    requires var key := node % TWO_32;
             key in sc.nodeIDToNameID && BitsInt32(sc.nodeIDToNameID[key]) > -1
             ==> BitsInt32(sc.nodeIDToNameID[key]) < |sc.names|
    ensures r == (if node % TWO_32 in sc.nodeIDToNameID && sc.nodeIDToNameID[node % TWO_32] < 0x8000_0000
                  then sc.names[sc.nodeIDToNameID[node % TWO_32]] else "")
  {
    var key := node % TWO_32;
    var strID := if key in sc.nodeIDToNameID then BitsInt32(sc.nodeIDToNameID[key]) as int else -1;
    if strID > -1 then sc.names[strID] else ""
  }
}
