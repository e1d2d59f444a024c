/** `recalculateGlobalTransforms`: level-by-level propagation `global = global[parent] * local`
    over the dirty lists, without recursion. The matrix product is a parameter. */
module SceneTransforms {
  import opened Matrix
  import opened SceneGraph
  import opened SceneMarking

  type MatMul = (Mat4, Mat4) -> Mat4

  /** Entries of a list below level 0 index the arrays, and so do their parents. */
  ghost predicate Updatable(h: seq<Hierarchy>, xs: seq<int>) {
    forall i :: 0 <= i < |xs| ==> 0 <= xs[i] < |h| && 0 <= h[xs[i]].parent < |h|
  }

  /** The inner `for` loop over one dirty list, in list order. */
  function UpdateList(h: seq<Hierarchy>, local: seq<Mat4>, g: seq<Mat4>, xs: seq<int>, mul: MatMul): (r: seq<Mat4>)
    requires |local| == |h| && |g| == |h| && Updatable(h, xs)
    ensures |r| == |g|
    ensures forall x :: 0 <= x < |g| && x !in xs ==> r[x] == g[x]
    ensures (forall i :: 0 <= i < |xs| ==> h[xs[i]].parent as int !in xs) ==>
              forall i :: 0 <= i < |xs| ==> r[xs[i]] == mul(g[h[xs[i]].parent], local[xs[i]])
    decreases |xs|
  {
    if xs == [] then g
    else
      var c := xs[0];
      var p := h[c].parent as int;
      var g1 := g[c := mul(g[p], local[c])];
      var r := UpdateList(h, local, g1, xs[1..], mul);
      assert forall i :: 0 <= i < |xs[1..]| ==> xs[1..][i] == xs[i + 1];
      r
  }

  /** Level 0 of `recalculateGlobalTransforms`: only the first listed node gets
      global := local, and the whole list is cleared. */
  function RootStep(sc: Scene): (r: Scene)
    requires ParallelArrays(sc)
    requires sc.changedAtThisFrame[0] != [] ==> 0 <= sc.changedAtThisFrame[0][0] < |sc.hierarchy|
    ensures r.changedAtThisFrame[0] == [] && |r.globalTransform| == |sc.globalTransform|
    ensures sc.changedAtThisFrame[0] != [] ==>
              r.globalTransform[sc.changedAtThisFrame[0][0]] == sc.localTransform[sc.changedAtThisFrame[0][0]]
    ensures forall j :: 0 <= j < |sc.globalTransform| && (sc.changedAtThisFrame[0] == [] || j != sc.changedAtThisFrame[0][0])
              ==> r.globalTransform[j] == sc.globalTransform[j]
  {
    var d := sc.changedAtThisFrame;
    if d[0] == [] then sc
    else
      var n := d[0][0];
      sc.(globalTransform := sc.globalTransform[n := sc.localTransform[n]],
          changedAtThisFrame := d[0 := []])
  }

  /** One pass of the outer loop: update every node of level `i`'s list, then clear it. */
  function LevelStep(sc: Scene, i: int, mul: MatMul): (r: Scene)
    requires ParallelArrays(sc) && 1 <= i < MAX_NODE_LEVEL
    requires Updatable(sc.hierarchy, sc.changedAtThisFrame[i])
  {
    sc.(globalTransform := UpdateList(sc.hierarchy, sc.localTransform, sc.globalTransform,
                                      sc.changedAtThisFrame[i], mul),
        changedAtThisFrame := sc.changedAtThisFrame[i := []])
  }

  /** Every list in `[from, l)` is non-empty, so the loop that starts at `from` reaches `l`. */
  ghost predicate Reaches(d: DirtyLists, from: int, l: int)
    requires 0 <= from && l <= MAX_NODE_LEVEL
  {
    forall k :: from <= k < l ==> d[k] != []
  }

  lemma ReachesAfterStep(d: DirtyLists, i: int)
    requires 1 <= i < MAX_NODE_LEVEL && d[i] != []
    ensures forall l :: i + 1 <= l <= MAX_NODE_LEVEL ==> (Reaches(d[i := []], i + 1, l) <==> Reaches(d, i, l))
  {
    forall l | i + 1 <= l <= MAX_NODE_LEVEL
      ensures Reaches(d[i := []], i + 1, l) <==> Reaches(d, i, l)
    {
      if Reaches(d[i := []], i + 1, l) {
        forall k | i <= k < l
          ensures d[k] != []
        {
          if k > i {
            assert d[i := []][k] == d[k];
          }
        }
      }
    }
  }

  /** The level-0 step changes nothing but the global transforms and level 0's list. */
  lemma RootStepFrame(sc: Scene)
    requires ParallelArrays(sc)
    requires sc.changedAtThisFrame[0] != [] ==> 0 <= sc.changedAtThisFrame[0][0] < |sc.hierarchy|
    ensures var r := RootStep(sc);
            && ParallelArrays(r)
            && r == sc.(globalTransform := r.globalTransform, changedAtThisFrame := r.changedAtThisFrame)
            && r.changedAtThisFrame[0] == []
            && (forall l :: 1 <= l < MAX_NODE_LEVEL ==> r.changedAtThisFrame[l] == sc.changedAtThisFrame[l])
  {
  }

  /** The outer loop as written: levels `i, i+1, ...` until the first empty list. */
  function LowerLevels(sc: Scene, i: int, mul: MatMul): (r: Scene)
    requires ParallelArrays(sc) && 1 <= i <= MAX_NODE_LEVEL
    requires forall l :: i <= l < MAX_NODE_LEVEL && Reaches(sc.changedAtThisFrame, i, l) ==>
               Updatable(sc.hierarchy, sc.changedAtThisFrame[l])
    ensures ParallelArrays(r)
    ensures r == sc.(globalTransform := r.globalTransform, changedAtThisFrame := r.changedAtThisFrame)
    ensures forall l :: 0 <= l < i ==> r.changedAtThisFrame[l] == sc.changedAtThisFrame[l]
    ensures forall l :: i <= l < MAX_NODE_LEVEL ==>
              r.changedAtThisFrame[l] == (if Reaches(sc.changedAtThisFrame, i, l) then [] else sc.changedAtThisFrame[l])
    decreases MAX_NODE_LEVEL - i
  {
    var d := sc.changedAtThisFrame;
    if i < MAX_NODE_LEVEL && d[i] != [] then
      assert Reaches(d, i, i);
      var sc1 := LevelStep(sc, i, mul);
      ReachesAfterStep(d, i);
      LowerLevels(sc1, i + 1, mul)
    else
      sc
  }

  /** What the source needs of the dirty lists it visits: a valid first entry at level 0, and
      valid entries with valid parents on every lower level the loop reaches. */
  ghost predicate RecalculateOk(sc: Scene) {
    var d := sc.changedAtThisFrame;
    && ParallelArrays(sc)
    && (d[0] != [] ==> 0 <= d[0][0] < |sc.hierarchy|)
    && (forall l :: 1 <= l < MAX_NODE_LEVEL && Reaches(d, 1, l) ==> Updatable(sc.hierarchy, d[l]))
  }

  /** `recalculateGlobalTransforms` as written. Level 0 loses every entry but the first;
      lists below the first empty list of level >= 1 are neither processed nor cleared. */
  function Recalculate(sc: Scene, mul: MatMul): (r: Scene)
    requires RecalculateOk(sc)
    ensures ParallelArrays(r)
    ensures r == sc.(globalTransform := r.globalTransform, changedAtThisFrame := r.changedAtThisFrame)
    ensures r.changedAtThisFrame[0] == []
    ensures forall l :: 1 <= l < MAX_NODE_LEVEL ==>
              r.changedAtThisFrame[l] == (if Reaches(sc.changedAtThisFrame, 1, l) then [] else sc.changedAtThisFrame[l])
  {
    var sc0 := RootStep(sc);
    RootStepFrame(sc);
    assert forall l :: 1 <= l <= MAX_NODE_LEVEL ==>
             Reaches(sc0.changedAtThisFrame, 1, l) == Reaches(sc.changedAtThisFrame, 1, l);
    LowerLevels(sc0, 1, mul)
  }

  // ---------------------------------------------------------------------------------------
  // Visiting every level

  /** The outer loop visiting every level `i .. MAX_NODE_LEVEL-1`, empty or not. */
  function AllLevels(sc: Scene, i: int, mul: MatMul): (r: Scene)
    requires ParallelArrays(sc) && 1 <= i <= MAX_NODE_LEVEL
    requires forall l :: i <= l < MAX_NODE_LEVEL ==> Updatable(sc.hierarchy, sc.changedAtThisFrame[l])
    ensures ParallelArrays(r)
    ensures r == sc.(globalTransform := r.globalTransform, changedAtThisFrame := r.changedAtThisFrame)
    ensures forall l :: 0 <= l < i ==> r.changedAtThisFrame[l] == sc.changedAtThisFrame[l]
    ensures forall l :: i <= l < MAX_NODE_LEVEL ==> r.changedAtThisFrame[l] == []
    decreases MAX_NODE_LEVEL - i
  {
    if i == MAX_NODE_LEVEL then sc else AllLevels(LevelStep(sc, i, mul), i + 1, mul)
  }

  ghost predicate RecalculateAllOk(sc: Scene) {
    var d := sc.changedAtThisFrame;
    && ParallelArrays(sc)
    && (d[0] != [] ==> 0 <= d[0][0] < |sc.hierarchy|)
    && (forall l :: 1 <= l < MAX_NODE_LEVEL ==> Updatable(sc.hierarchy, d[l]))
  }

  /** The corrected update: the same level-0 step, then every lower level in order. */
  function RecalculateAllLevels(sc: Scene, mul: MatMul): (r: Scene)
    requires RecalculateAllOk(sc)
    ensures ParallelArrays(r)
    ensures r == sc.(globalTransform := r.globalTransform, changedAtThisFrame := r.changedAtThisFrame)
    ensures r.changedAtThisFrame == NoDirtyNodes()
  {
    RootStepFrame(sc);
    var r := AllLevels(RootStep(sc), 1, mul);
    assert r.changedAtThisFrame == NoDirtyNodes();
    r
  }
}
