/** What recalculating the global transforms achieves on a well-formed graph whose dirty
    lists hold nodes at their own level, and where the as-written loop falls short. */
module ScenePropagation {
  import opened Matrix
  import opened SceneGraph
  import opened SceneInvariants
  import opened SceneMarking
  import opened SceneTransforms

  /** Every dirty-list entry is a node whose level is the list's level, as `markAsChanged`
      leaves them. */
  ghost predicate MarksAtOwnLevel(h: seq<Hierarchy>, d: DirtyLists) {
    forall l, i :: 0 <= l < MAX_NODE_LEVEL && 0 <= i < |d[l]| ==> 0 <= d[l][i] < |h| && h[d[l][i]].level as int == l
  }

  /** Levels index a dirty list, and below level 0 every node has a parent, one level up. */
  ghost predicate ParentsAbove(h: seq<Hierarchy>) {
    forall x :: 0 <= x < |h| ==>
      && 0 <= h[x].level as int < MAX_NODE_LEVEL
      && (h[x].level >= 1 ==> 0 <= h[x].parent < |h| && h[h[x].parent].level as int + 1 == h[x].level as int)
  }

  lemma WellFormedParentsAbove(h: seq<Hierarchy>)
    requires WellFormed(h)
    ensures ParentsAbove(h)
  {
    forall x | 0 <= x < |h|
      ensures h[x].level >= 1 ==> 0 <= h[x].parent < |h| && h[h[x].parent].level as int + 1 == h[x].level as int
    {
      if h[x].level >= 1 {
        KidParent(h, h[x].parent as int, x);
      }
    }
  }

  lemma ParentLevel(h: seq<Hierarchy>, x: int)
    requires ParentsAbove(h) && 0 <= x < |h| && h[x].level >= 1
    ensures 0 <= h[x].parent < |h| && h[h[x].parent].level as int + 1 == h[x].level as int
  {
  }

  lemma MarkedUpdatableAll(sc: Scene)
    requires ParallelArrays(sc) && ParentsAbove(sc.hierarchy) && MarksAtOwnLevel(sc.hierarchy, sc.changedAtThisFrame)
    ensures RecalculateAllOk(sc)
  {
    var h := sc.hierarchy;
    var d := sc.changedAtThisFrame;
    forall l | 1 <= l < MAX_NODE_LEVEL
      ensures Updatable(h, d[l])
    {
      forall i | 0 <= i < |d[l]|
        ensures 0 <= d[l][i] < |h| && 0 <= h[d[l][i]].parent < |h|
      {
        ParentLevel(h, d[l][i]);
      }
    }
  }

  lemma MarkedUpdatable(sc: Scene)
    requires ParallelArrays(sc) && ParentsAbove(sc.hierarchy) && MarksAtOwnLevel(sc.hierarchy, sc.changedAtThisFrame)
    ensures RecalculateAllOk(sc) && RecalculateOk(sc)
  {
    MarkedUpdatableAll(sc);
  }

  lemma ListedAtOwnLevel(h: seq<Hierarchy>, d: DirtyLists, l: int, x: int)
    requires MarksAtOwnLevel(h, d) && 0 <= l < MAX_NODE_LEVEL && x in d[l]
    ensures 0 <= x < |h| && h[x].level as int == l
  {
    var i :| 0 <= i < |d[l]| && d[l][i] == x;
  }

  // ---------------------------------------------------------------------------------------
  // The outer loop over a run of lists, on the global transforms alone

  /** The global transforms after the inner loop has run over each list of `ds` in order. */
  function Sweep(h: seq<Hierarchy>, local: seq<Mat4>, g: seq<Mat4>, ds: seq<seq<int>>, mul: MatMul): (r: seq<Mat4>)
    requires |local| == |h| && |g| == |h|
    requires forall k :: 0 <= k < |ds| ==> Updatable(h, ds[k])
    ensures |r| == |h|
    decreases |ds|
  {
    if ds == [] then g
    else
      assert forall k :: 0 <= k < |ds| - 1 ==> ds[1..][k] == ds[k + 1];
      Sweep(h, local, UpdateList(h, local, g, ds[0], mul), ds[1..], mul)
  }

  lemma SuffixUpdatable(h: seq<Hierarchy>, d: DirtyLists, i: int)
    requires 1 <= i <= MAX_NODE_LEVEL
    requires forall l :: i <= l < MAX_NODE_LEVEL ==> Updatable(h, d[l])
    ensures forall k :: 0 <= k < |d[i..]| ==> Updatable(h, d[i..][k])
  {
    forall k | 0 <= k < |d[i..]|
      ensures Updatable(h, d[i..][k])
    {
      assert d[i..][k] == d[i + k];
    }
  }

  lemma ClearedTail(d: DirtyLists, i: int)
    requires 1 <= i < MAX_NODE_LEVEL
    ensures d[i := []][i + 1..] == d[i..][1..]
  {
    assert forall k :: 0 <= k < |d[i..][1..]| ==> d[i := []][i + 1..][k] == d[i..][1..][k];
  }

  /** Visiting levels `i ..` of the dirty lists computes the sweep over `d[i..]`. */
  lemma {:induction false} AllLevelsSweep(sc: Scene, i: int, mul: MatMul)
    requires ParallelArrays(sc) && 1 <= i <= MAX_NODE_LEVEL
    requires forall l :: i <= l < MAX_NODE_LEVEL ==> Updatable(sc.hierarchy, sc.changedAtThisFrame[l])
    ensures forall k :: 0 <= k < |sc.changedAtThisFrame[i..]| ==>
              Updatable(sc.hierarchy, sc.changedAtThisFrame[i..][k])
    ensures AllLevels(sc, i, mul).globalTransform ==
              Sweep(sc.hierarchy, sc.localTransform, sc.globalTransform, sc.changedAtThisFrame[i..], mul)
    decreases MAX_NODE_LEVEL - i
  {
    var d := sc.changedAtThisFrame;
    SuffixUpdatable(sc.hierarchy, d, i);
    if i < MAX_NODE_LEVEL {
      var sc1 := LevelStep(sc, i, mul);
      ClearedTail(d, i);
      assert d[i..][0] == d[i];
      AllLevelsSweep(sc1, i + 1, mul);
    } else {
      assert d[i..] == [];
    }
  }

  /** List `k` of `ds` holds nodes at level `base + k`. */
  ghost predicate AtLevels(h: seq<Hierarchy>, ds: seq<seq<int>>, base: int) {
    forall k, j :: 0 <= k < |ds| && 0 <= j < |ds[k]| ==> 0 <= ds[k][j] < |h| && h[ds[k][j]].level as int == base + k
  }

  lemma AtLevelsUpdatable(h: seq<Hierarchy>, ds: seq<seq<int>>, base: int)
    requires ParentsAbove(h) && AtLevels(h, ds, base) && base >= 1
    ensures forall k :: 0 <= k < |ds| ==> Updatable(h, ds[k])
  {
    forall k, j | 0 <= k < |ds| && 0 <= j < |ds[k]|
      ensures 0 <= h[ds[k][j]].parent < |h|
    {
      ParentLevel(h, ds[k][j]);
    }
  }

  lemma AtLevelsTail(h: seq<Hierarchy>, ds: seq<seq<int>>, base: int)
    requires AtLevels(h, ds, base) && ds != []
    ensures AtLevels(h, ds[1..], base + 1)
  {
    forall k, j | 0 <= k < |ds[1..]| && 0 <= j < |ds[1..][k]|
      ensures 0 <= ds[1..][k][j] < |h| && h[ds[1..][k][j]].level as int == base + 1 + k
    {
      assert ds[1..][k] == ds[k + 1];
    }
  }

  /** A node below `base` in level is on none of the lists. */
  lemma AboveUnlisted(h: seq<Hierarchy>, ds: seq<seq<int>>, base: int, x: int)
    requires AtLevels(h, ds, base) && 0 <= x < |h| && h[x].level as int < base
    ensures forall k :: 0 <= k < |ds| ==> x !in ds[k]
  {
  }

  /** A node on none of the lists keeps its global transform. */
  lemma {:induction false} SweepUnlisted(h: seq<Hierarchy>, local: seq<Mat4>, g: seq<Mat4>, ds: seq<seq<int>>,
                                         mul: MatMul, x: int)
    requires |local| == |h| && |g| == |h|
    requires forall k :: 0 <= k < |ds| ==> Updatable(h, ds[k])
    requires 0 <= x < |h| && forall k :: 0 <= k < |ds| ==> x !in ds[k]
    ensures Sweep(h, local, g, ds, mul)[x] == g[x]
    decreases |ds|
  {
    if ds != [] {
      assert forall k :: 0 <= k < |ds| - 1 ==> ds[1..][k] == ds[k + 1];
      SweepUnlisted(h, local, UpdateList(h, local, g, ds[0], mul), ds[1..], mul, x);
    }
  }

  /** Each listed node ends with global = global[parent] * local, against its parent's final
      global transform: the parent sits one level up, so it is final before the node's list. */
  lemma {:induction false} SweepListed(h: seq<Hierarchy>, local: seq<Mat4>, g: seq<Mat4>, ds: seq<seq<int>>,
                                       base: int, mul: MatMul, k: int, j: int)
    requires |local| == |h| && |g| == |h| && base >= 1
    requires ParentsAbove(h) && AtLevels(h, ds, base)
    requires 0 <= k < |ds| && 0 <= j < |ds[k]|
    ensures forall k' :: 0 <= k' < |ds| ==> Updatable(h, ds[k'])
    ensures var x := ds[k][j];
            var r := Sweep(h, local, g, ds, mul);
            0 <= h[x].parent < |h| && r[x] == mul(r[h[x].parent], local[x])
    decreases |ds|
  {
    AtLevelsUpdatable(h, ds, base);
    var x := ds[k][j];
    ParentLevel(h, x);
    var p := h[x].parent as int;
    var g1 := UpdateList(h, local, g, ds[0], mul);
    AtLevelsTail(h, ds, base);
    assert forall k' :: 0 <= k' < |ds| - 1 ==> ds[1..][k'] == ds[k' + 1];
    if k == 0 {
      forall i | 0 <= i < |ds[0]|
        ensures h[ds[0][i]].parent as int !in ds[0]
      {
        ParentLevel(h, ds[0][i]);
        AboveUnlisted(h, ds[..1], base, h[ds[0][i]].parent as int);
        assert ds[..1][0] == ds[0];
      }
      AboveUnlisted(h, ds[1..], base + 1, x);
      AboveUnlisted(h, ds[1..], base + 1, p);
      SweepUnlisted(h, local, g1, ds[1..], mul, x);
      SweepUnlisted(h, local, g1, ds[1..], mul, p);
      AboveUnlisted(h, ds[..1], base, p);
      assert ds[..1][0] == ds[0];
    } else {
      assert ds[1..][k - 1] == ds[k];
      SweepListed(h, local, g1, ds[1..], base + 1, mul, k - 1, j);
    }
  }

  /** Marks at their own level are at levels `1 ..` from list 1 on. */
  lemma MarksAtLevels(h: seq<Hierarchy>, d: DirtyLists)
    requires MarksAtOwnLevel(h, d)
    ensures AtLevels(h, d[1..], 1)
  {
    forall k, j | 0 <= k < |d[1..]| && 0 <= j < |d[1..][k]|
      ensures 0 <= d[1..][k][j] < |h| && h[d[1..][k][j]].level as int == 1 + k
    {
      assert d[1..][k] == d[k + 1];
    }
  }

  lemma RecalculateAllSweep(sc: Scene, mul: MatMul)
    requires RecalculateAllOk(sc)
    ensures var sc0 := RootStep(sc);
            && (forall k :: 0 <= k < |sc.changedAtThisFrame[1..]| ==> Updatable(sc.hierarchy, sc.changedAtThisFrame[1..][k]))
            && RecalculateAllLevels(sc, mul).globalTransform ==
                 Sweep(sc.hierarchy, sc.localTransform, sc0.globalTransform, sc.changedAtThisFrame[1..], mul)
  {
    var sc0 := RootStep(sc);
    RootStepFrame(sc);
    AllLevelsSweep(sc0, 1, mul);
    assert sc0.changedAtThisFrame[1..] == sc.changedAtThisFrame[1..];
  }

  lemma RecalculateAllRoot(sc: Scene, mul: MatMul)
    requires ParallelArrays(sc) && ParentsAbove(sc.hierarchy)
    requires MarksAtOwnLevel(sc.hierarchy, sc.changedAtThisFrame)
    requires sc.changedAtThisFrame[0] != []
    ensures RecalculateAllOk(sc)
    ensures var n := sc.changedAtThisFrame[0][0];
            RecalculateAllLevels(sc, mul).globalTransform[n] == sc.localTransform[n]
  {
    MarkedUpdatableAll(sc);
    var h := sc.hierarchy;
    var d := sc.changedAtThisFrame;
    var n := d[0][0];
    RecalculateAllSweep(sc, mul);
    MarksAtLevels(h, d);
    AboveUnlisted(h, d[1..], 1, n);
    SweepUnlisted(h, sc.localTransform, RootStep(sc).globalTransform, d[1..], mul, n);
  }

  lemma RecalculateAllListed(sc: Scene, mul: MatMul, l: int, j: int)
    requires ParallelArrays(sc) && ParentsAbove(sc.hierarchy)
    requires MarksAtOwnLevel(sc.hierarchy, sc.changedAtThisFrame)
    requires 1 <= l < MAX_NODE_LEVEL && 0 <= j < |sc.changedAtThisFrame[l]|
    ensures RecalculateAllOk(sc)
    ensures var x := sc.changedAtThisFrame[l][j];
            var r := RecalculateAllLevels(sc, mul).globalTransform;
            0 <= sc.hierarchy[x].parent < |sc.hierarchy| &&
            r[x] == mul(r[sc.hierarchy[x].parent], sc.localTransform[x])
  {
    MarkedUpdatableAll(sc);
    var h := sc.hierarchy;
    var d := sc.changedAtThisFrame;
    var ds := d[1..];
    var g0 := RootStep(sc).globalTransform;
    RecalculateAllSweep(sc, mul);
    MarksAtLevels(h, d);
    SweepListed(h, sc.localTransform, g0, ds, 1, mul, l - 1, j);
    assert ds[l - 1][j] == d[l][j];
  }

  /** A node missing from its own level's list is on no list below level 0. */
  lemma OwnLevelUnlisted(h: seq<Hierarchy>, d: DirtyLists, x: int)
    requires MarksAtOwnLevel(h, d) && 0 <= x < |h|
    requires h[x].level == 0 || (0 <= h[x].level as int < MAX_NODE_LEVEL && x !in d[h[x].level])
    ensures forall k :: 0 <= k < |d[1..]| ==> x !in d[1..][k]
  {
    forall k | 0 <= k < |d[1..]|
      ensures x !in d[1..][k]
    {
      assert d[1..][k] == d[k + 1];
      if x in d[k + 1] {
        ListedAtOwnLevel(h, d, k + 1, x);
      }
    }
  }

  lemma RecalculateAllUnlisted(sc: Scene, mul: MatMul, x: int)
    requires ParallelArrays(sc) && ParentsAbove(sc.hierarchy)
    requires MarksAtOwnLevel(sc.hierarchy, sc.changedAtThisFrame)
    requires 0 <= x < |sc.hierarchy|
    requires sc.hierarchy[x].level == 0 || x !in sc.changedAtThisFrame[sc.hierarchy[x].level]
    requires sc.changedAtThisFrame[0] == [] || x != sc.changedAtThisFrame[0][0]
    ensures RecalculateAllOk(sc)
    ensures RecalculateAllLevels(sc, mul).globalTransform[x] == sc.globalTransform[x]
  {
    MarkedUpdatableAll(sc);
    var h := sc.hierarchy;
    var d := sc.changedAtThisFrame;
    RecalculateAllSweep(sc, mul);
    OwnLevelUnlisted(h, d, x);
    SweepUnlisted(h, sc.localTransform, RootStep(sc).globalTransform, d[1..], mul, x);
  }

  /** The corrected update on a graph whose marks sit at their own level: the first level-0
      entry takes its local transform, every node listed below level 0 satisfies
      global = global[parent] * local, and every other node keeps its global transform. */
  lemma RecalculateAllPropagates(sc: Scene, mul: MatMul)
    requires ParallelArrays(sc) && ParentsAbove(sc.hierarchy)
    requires MarksAtOwnLevel(sc.hierarchy, sc.changedAtThisFrame)
    ensures RecalculateAllOk(sc)
    ensures var h := sc.hierarchy;
            var d := sc.changedAtThisFrame;
            var r := RecalculateAllLevels(sc, mul).globalTransform;
            && (d[0] != [] ==> r[d[0][0]] == sc.localTransform[d[0][0]])
            && (forall l, j :: 1 <= l < MAX_NODE_LEVEL && 0 <= j < |d[l]| ==>
                  0 <= h[d[l][j]].parent < |h| &&
                  r[d[l][j]] == mul(r[h[d[l][j]].parent], sc.localTransform[d[l][j]]))
            && (forall x :: (0 <= x < |h| && (h[x].level == 0 || x !in d[h[x].level])
                                && (d[0] == [] || x != d[0][0])) ==> r[x] == sc.globalTransform[x])
  {
    MarkedUpdatableAll(sc);
    if sc.changedAtThisFrame[0] != [] {
      RecalculateAllRoot(sc, mul);
    }
    forall l, j | 1 <= l < MAX_NODE_LEVEL && 0 <= j < |sc.changedAtThisFrame[l]|
      ensures 0 <= sc.hierarchy[sc.changedAtThisFrame[l][j]].parent < |sc.hierarchy|
      ensures RecalculateAllLevels(sc, mul).globalTransform[sc.changedAtThisFrame[l][j]] ==
                mul(RecalculateAllLevels(sc, mul).globalTransform[sc.hierarchy[sc.changedAtThisFrame[l][j]].parent],
                    sc.localTransform[sc.changedAtThisFrame[l][j]])
    {
      RecalculateAllListed(sc, mul, l, j);
    }
    forall x | (0 <= x < |sc.hierarchy| && (sc.hierarchy[x].level == 0 || x !in sc.changedAtThisFrame[sc.hierarchy[x].level])
                && (sc.changedAtThisFrame[0] == [] || x != sc.changedAtThisFrame[0][0]))
      ensures RecalculateAllLevels(sc, mul).globalTransform[x] == sc.globalTransform[x]
    {
      RecalculateAllUnlisted(sc, mul, x);
    }
  }

  // ---------------------------------------------------------------------------------------
  // Repeated calls

  /** With nothing marked at levels 0 and 1, the as-written update changes nothing. */
  lemma RecalculateUnmarkedNoop(sc: Scene, mul: MatMul)
    requires ParallelArrays(sc) && sc.changedAtThisFrame[0] == [] && sc.changedAtThisFrame[1] == []
    ensures RecalculateOk(sc)
    ensures Recalculate(sc, mul) == sc
  {
  }

  /** A second call with no new marks is a no-op. */
  lemma RecalculateIdempotent(sc: Scene, mul: MatMul)
    requires RecalculateOk(sc)
    ensures RecalculateOk(Recalculate(sc, mul))
    ensures Recalculate(Recalculate(sc, mul), mul) == Recalculate(sc, mul)
  {
    var r := Recalculate(sc, mul);
    assert Reaches(sc.changedAtThisFrame, 1, 1);
    RecalculateUnmarkedNoop(r, mul);
  }

  lemma {:induction false} AllLevelsUnmarkedNoop(sc: Scene, i: int, mul: MatMul)
    requires ParallelArrays(sc) && 1 <= i <= MAX_NODE_LEVEL
    requires forall l :: i <= l < MAX_NODE_LEVEL ==> sc.changedAtThisFrame[l] == []
    ensures AllLevels(sc, i, mul) == sc
    decreases MAX_NODE_LEVEL - i
  {
    if i < MAX_NODE_LEVEL {
      var sc1 := LevelStep(sc, i, mul);
      assert sc1.changedAtThisFrame == sc.changedAtThisFrame;
      assert sc1 == sc;
      AllLevelsUnmarkedNoop(sc1, i + 1, mul);
    }
  }

  lemma RecalculateAllIdempotent(sc: Scene, mul: MatMul)
    requires RecalculateAllOk(sc)
    ensures RecalculateAllOk(RecalculateAllLevels(sc, mul))
    ensures RecalculateAllLevels(RecalculateAllLevels(sc, mul), mul) == RecalculateAllLevels(sc, mul)
  {
    var r := RecalculateAllLevels(sc, mul);
    assert r.changedAtThisFrame == NoDirtyNodes();
    assert RecalculateAllOk(r) by {
      forall l | 1 <= l < MAX_NODE_LEVEL
        ensures Updatable(r.hierarchy, r.changedAtThisFrame[l])
      {
        assert r.changedAtThisFrame[l] == [];
      }
    }
    assert RootStep(r) == r by {
      assert r.changedAtThisFrame[0] == [];
    }
    AllLevelsUnmarkedNoop(r, 1, mul);
  }

  // ---------------------------------------------------------------------------------------
  // As written against every level

  /** No empty list below level 0 is followed by a non-empty one. */
  ghost predicate NoGap(d: DirtyLists) {
    forall l, k :: 1 <= l <= k < MAX_NODE_LEVEL && d[l] == [] ==> d[k] == []
  }

  lemma {:induction false} LowerLevelsAgree(sc: Scene, i: int, mul: MatMul)
    requires ParallelArrays(sc) && 1 <= i <= MAX_NODE_LEVEL
    requires forall l :: i <= l < MAX_NODE_LEVEL ==> Updatable(sc.hierarchy, sc.changedAtThisFrame[l])
    requires forall l, k :: i <= l <= k < MAX_NODE_LEVEL && sc.changedAtThisFrame[l] == [] ==> sc.changedAtThisFrame[k] == []
    ensures LowerLevels(sc, i, mul) == AllLevels(sc, i, mul)
    decreases MAX_NODE_LEVEL - i
  {
    var d := sc.changedAtThisFrame;
    if i < MAX_NODE_LEVEL {
      if d[i] == [] {
        AllLevelsUnmarkedNoop(sc, i, mul);
      } else {
        var sc1 := LevelStep(sc, i, mul);
        ReachesAfterStep(d, i);
        LowerLevelsAgree(sc1, i + 1, mul);
      }
    }
  }

  /** Without a gap in the lower lists, the as-written update equals the corrected one. */
  lemma RecalculateAgreesWithoutGap(sc: Scene, mul: MatMul)
    requires RecalculateAllOk(sc) && NoGap(sc.changedAtThisFrame)
    ensures RecalculateOk(sc)
    ensures Recalculate(sc, mul) == RecalculateAllLevels(sc, mul)
  {
    RootStepFrame(sc);
    var sc0 := RootStep(sc);
    assert forall l :: 1 <= l <= MAX_NODE_LEVEL ==>
             Reaches(sc0.changedAtThisFrame, 1, l) == Reaches(sc.changedAtThisFrame, 1, l);
    LowerLevelsAgree(sc0, 1, mul);
  }

  // ---------------------------------------------------------------------------------------
  // markAsChanged(root) followed by recalculateGlobalTransforms

  lemma MarkFromClean(h: seq<Hierarchy>, root: int, l: int)
    requires Layered(h) && 0 <= root < |h| && 0 <= l < MAX_NODE_LEVEL
    ensures MarkAsChanged(h, NoDirtyNodes(), root)[l] == AtLevel(h, Subtree(h, root), l)
  {
    MarkAsChangedAppends(h, NoDirtyNodes(), root, l);
  }

  lemma MarkRootAtOwnLevel(h: seq<Hierarchy>, root: int)
    requires Layered(h) && 0 <= root < |h|
    ensures MarksAtOwnLevel(h, MarkAsChanged(h, NoDirtyNodes(), root))
  {
    var d := MarkAsChanged(h, NoDirtyNodes(), root);
    forall l, i | 0 <= l < MAX_NODE_LEVEL && 0 <= i < |d[l]|
      ensures 0 <= d[l][i] < |h| && h[d[l][i]].level as int == l
    {
      MarkFromClean(h, root, l);
      AtLevelMembers(h, Subtree(h, root), l, d[l][i]);
    }
  }

  lemma MarkRootNoGap(h: seq<Hierarchy>, root: int)
    requires Layered(h) && 0 <= root < |h| && h[root].level == 0
    ensures NoGap(MarkAsChanged(h, NoDirtyNodes(), root))
  {
    var d := MarkAsChanged(h, NoDirtyNodes(), root);
    forall l, k | 1 <= l <= k < MAX_NODE_LEVEL && d[l] == []
      ensures d[k] == []
    {
      if d[k] != [] {
        MarkFromClean(h, root, k);
        MarkFromClean(h, root, l);
        AtLevelMembers(h, Subtree(h, root), k, d[k][0]);
        SubtreeLevelsContiguous(h, root, d[k][0], l);
      }
    }
  }

  lemma MarkRootHead(h: seq<Hierarchy>, root: int)
    requires Layered(h) && 0 <= root < |h| && h[root].level == 0
    ensures var d := MarkAsChanged(h, NoDirtyNodes(), root);
            d[0] != [] && d[0][0] == root
  {
    var t := Subtree(h, root);
    MarkFromClean(h, root, 0);
    assert t == [root] + t[1..];
    AtLevelAppend(h, [root], t[1..], 0);
  }

  /** The as-written update on gap-free marks at their own level, headed by `root` on level 0. */
  lemma GapFreeRecalculate(sc: Scene, root: int, mul: MatMul)
    requires ParallelArrays(sc) && ParentsAbove(sc.hierarchy)
    requires MarksAtOwnLevel(sc.hierarchy, sc.changedAtThisFrame) && NoGap(sc.changedAtThisFrame)
    requires sc.changedAtThisFrame[0] != [] && sc.changedAtThisFrame[0][0] == root
    ensures RecalculateOk(sc) && RecalculateAllOk(sc)
    ensures Recalculate(sc, mul) == RecalculateAllLevels(sc, mul)
    ensures var h := sc.hierarchy;
            var d := sc.changedAtThisFrame;
            var r := Recalculate(sc, mul).globalTransform;
            && r[root] == sc.localTransform[root]
            && (forall x :: 0 <= x < |h| && 1 <= h[x].level as int < MAX_NODE_LEVEL && x in d[h[x].level] ==>
                  0 <= h[x].parent < |h| && r[x] == mul(r[h[x].parent], sc.localTransform[x]))
  {
    MarkedUpdatable(sc);
    RecalculateAgreesWithoutGap(sc, mul);
    RecalculateAllPropagates(sc, mul);
    var h := sc.hierarchy;
    var d := sc.changedAtThisFrame;
    forall x | 0 <= x < |h| && 1 <= h[x].level as int < MAX_NODE_LEVEL && x in d[h[x].level]
      ensures 0 <= h[x].parent < |h|
      ensures Recalculate(sc, mul).globalTransform[x] ==
                mul(Recalculate(sc, mul).globalTransform[h[x].parent], sc.localTransform[x])
    {
      var l := h[x].level as int;
      var j :| 0 <= j < |d[l]| && d[l][j] == x;
    }
  }

  /** Marking a root and recalculating, as the renderer does for node 0: the as-written loop
      reaches every level of the subtree, so it agrees with visiting every level, and the root
      takes its local transform. */
  lemma MarkRootThenRecalculate(sc: Scene, root: int, mul: MatMul)
    requires ParallelArrays(sc) && Layered(sc.hierarchy) && ParentsAbove(sc.hierarchy)
    requires 0 <= root < |sc.hierarchy| && sc.hierarchy[root].level == 0
    ensures var sc' := sc.(changedAtThisFrame := MarkAsChanged(sc.hierarchy, NoDirtyNodes(), root));
            && RecalculateOk(sc') && RecalculateAllOk(sc')
            && Recalculate(sc', mul) == RecalculateAllLevels(sc', mul)
            && Recalculate(sc', mul).globalTransform[root] == sc.localTransform[root]
  {
    var h := sc.hierarchy;
    var sc' := sc.(changedAtThisFrame := MarkAsChanged(h, NoDirtyNodes(), root));
    MarkRootAtOwnLevel(h, root);
    MarkRootNoGap(h, root);
    MarkRootHead(h, root);
    GapFreeRecalculate(sc', root, mul);
  }

  /** One listed node of a gap-free marking: the as-written update gives it global[parent] * local. */
  lemma GapFreeListed(sc: Scene, mul: MatMul, x: int)
    requires ParallelArrays(sc) && ParentsAbove(sc.hierarchy)
    requires MarksAtOwnLevel(sc.hierarchy, sc.changedAtThisFrame) && NoGap(sc.changedAtThisFrame)
    requires 0 <= x < |sc.hierarchy| && 1 <= sc.hierarchy[x].level as int < MAX_NODE_LEVEL
    requires x in sc.changedAtThisFrame[sc.hierarchy[x].level]
    ensures RecalculateOk(sc) && 0 <= sc.hierarchy[x].parent < |sc.hierarchy|
    ensures Recalculate(sc, mul).globalTransform[x] ==
              mul(Recalculate(sc, mul).globalTransform[sc.hierarchy[x].parent], sc.localTransform[x])
  {
    MarkedUpdatable(sc);
    RecalculateAgreesWithoutGap(sc, mul);
    var l := sc.hierarchy[x].level as int;
    var j :| 0 <= j < |sc.changedAtThisFrame[l]| && sc.changedAtThisFrame[l][j] == x;
    RecalculateAllListed(sc, mul, l, j);
  }

  /** One node below the root of a freshly marked subtree. */
  lemma MarkRootNodePropagates(sc: Scene, root: int, mul: MatMul, x: int)
    requires ParallelArrays(sc) && Layered(sc.hierarchy) && ParentsAbove(sc.hierarchy)
    requires 0 <= root < |sc.hierarchy| && sc.hierarchy[root].level == 0
    requires x in Subtree(sc.hierarchy, root) && x != root
    ensures var sc' := sc.(changedAtThisFrame := MarkAsChanged(sc.hierarchy, NoDirtyNodes(), root));
            && RecalculateOk(sc')
            && 0 <= x < |sc.hierarchy| && 0 <= sc.hierarchy[x].parent < |sc.hierarchy|
            && var r := Recalculate(sc', mul).globalTransform;
               r[x] == mul(r[sc.hierarchy[x].parent], sc.localTransform[x])
  {
    var h := sc.hierarchy;
    var d := MarkAsChanged(h, NoDirtyNodes(), root);
    var sc' := sc.(changedAtThisFrame := d);
    MarkRootAtOwnLevel(h, root);
    MarkRootNoGap(h, root);
    SubtreeParent(h, root, x);
    var l := h[x].level as int;
    MarkFromClean(h, root, l);
    AtLevelMembers(h, Subtree(h, root), l, x);
    GapFreeListed(sc', mul, x);
  }

  /** ... and every other node of the root's subtree ends with global = global[parent] * local. */
  lemma MarkRootThenRecalculatePropagates(sc: Scene, root: int, mul: MatMul)
    requires ParallelArrays(sc) && Layered(sc.hierarchy) && ParentsAbove(sc.hierarchy)
    requires 0 <= root < |sc.hierarchy| && sc.hierarchy[root].level == 0
    ensures var sc' := sc.(changedAtThisFrame := MarkAsChanged(sc.hierarchy, NoDirtyNodes(), root));
            && RecalculateOk(sc')
            && var r := Recalculate(sc', mul).globalTransform;
               forall x :: x in Subtree(sc.hierarchy, root) && x != root ==>
                 0 <= x < |sc.hierarchy| && 0 <= sc.hierarchy[x].parent < |sc.hierarchy| &&
                 r[x] == mul(r[sc.hierarchy[x].parent], sc.localTransform[x])
  {
    MarkRootThenRecalculate(sc, root, mul);
    forall x | x in Subtree(sc.hierarchy, root) && x != root
      ensures var sc' := sc.(changedAtThisFrame := MarkAsChanged(sc.hierarchy, NoDirtyNodes(), root));
              && 0 <= x < |sc.hierarchy| && 0 <= sc.hierarchy[x].parent < |sc.hierarchy|
              && var r := Recalculate(sc', mul).globalTransform;
                 r[x] == mul(r[sc.hierarchy[x].parent], sc.localTransform[x])
    {
      MarkRootNodePropagates(sc, root, mul, x);
    }
  }
}
