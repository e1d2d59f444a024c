/** Where `recalculateGlobalTransforms` as written and the every-level update part ways: the
    outer loop stops at the first empty list below level 0, so a subtree marked below level 1
    on otherwise clean lists is never recomputed. */
module SceneGap {
  import opened Wrappers
  import opened Bytes
  import opened Matrix
  import opened SceneGraph
  import opened SceneMarking
  import opened SceneTransforms
  import opened ScenePropagation

  /** With nothing listed on level 1 the as-written update does only the level-0 step: no node
      below level 0 is recomputed and every list below level 0 stays queued. */
  lemma RecalculateStopsAtEmptyLevel(sc: Scene, mul: MatMul)
    requires RecalculateOk(sc) && sc.changedAtThisFrame[1] == []
    ensures var r := Recalculate(sc, mul);
            var d := sc.changedAtThisFrame;
            && r.globalTransform == (if d[0] == [] then sc.globalTransform
                                     else sc.globalTransform[d[0][0] := sc.localTransform[d[0][0]]])
            && (forall l :: 1 <= l < MAX_NODE_LEVEL ==> r.changedAtThisFrame[l] == d[l])
  {
    RootStepFrame(sc);
    assert !Reaches(sc.changedAtThisFrame, 1, 2);
  }

  /** A chain root(0) - a(1) - b(2), as `addNode(s, -1, 0)`, `addNode(s, 0, 1)`,
      `addNode(s, 1, 2)` build it. */
  function Chain(): (h: seq<Hierarchy>)
    ensures |h| == 3 && h[2].level == 2 && h[2].parent == 1
  {
    [Hierarchy(-1, 1, -1, -1, 0), Hierarchy(0, 2, -1, 1, 1), Hierarchy(1, -1, -1, 2, 2)]
  }

  /** The zero matrix, a local transform that differs from the identity. */
  function Zero(): (m: Mat4)
    ensures m != Identity()
  {
    assert Identity()[0] == ONE_F;
    seq(16, _ => 0)
  }

  lemma ChainParentsAbove()
    ensures ParentsAbove(Chain())
  {
  }

  lemma ChainLists()
    ensures ChildList(Chain(), 0) == Some([1])
    ensures ChildList(Chain(), 1) == Some([2])
    ensures ChildList(Chain(), 2) == Some([])
  {
    var h := Chain();
    assert Siblings(h, -1, 3) == Some([]);
    assert Siblings(h, -1, 2) == Some([]);
    assert [2] + [] == [2] && [1] + [] == [1];
    assert Siblings(h, 2, 3) == Some([2]);
    assert Siblings(h, 1, 3) == Some([1]);
  }

  lemma ChainLayered()
    ensures Layered(Chain())
  {
    var h := Chain();
    ChainLists();
    assert ChainsEnd(h) by {
      forall n | 0 <= n < |h| ensures ChildList(h, n).Some? {
        assert n == 0 || n == 1 || n == 2;
      }
    }
    forall n, i | 0 <= n < |h| && 0 <= i < |Kids(h, n)|
      ensures h[Kids(h, n)[i]].parent == n && h[Kids(h, n)[i]].level == h[n].level + 1
    {
      assert n == 0 || n == 1;
    }
  }

  /** Marking the leaf on clean lists queues it alone, on level 2. */
  lemma MarkLeaf()
    ensures Layered(Chain())
    ensures MarkAsChanged(Chain(), NoDirtyNodes(), 2) == LeafQueued()
  {
    ChainLayered();
    var h := Chain();
    var d := MarkAsChanged(h, NoDirtyNodes(), 2);
    assert Kids(h, 2) == [];
    assert d == Push(NoDirtyNodes(), 2, 2);
    assert [] + [2] == [2];
    assert forall l :: 0 <= l < MAX_NODE_LEVEL ==> d[l] == LeafQueued()[l];
  }

  /** The dirty lists after marking the leaf alone. */
  function LeafQueued(): (d: DirtyLists)
    ensures d[2] == [2] && forall l :: 0 <= l < MAX_NODE_LEVEL && l != 2 ==> d[l] == []
  {
    NoDirtyNodes()[2 := [2]]
  }

  /** The chain with `b`'s local transform the zero matrix, all globals the identity, and
      the given dirty lists. */
  function ChainScene(d: DirtyLists): (sc: Scene)
    ensures ParallelArrays(sc) && sc.hierarchy == Chain() && sc.changedAtThisFrame == d
  {
    Scene([Identity(), Identity(), Zero()], [Identity(), Identity(), Identity()],
          d, Chain(), map[], map[], map[], [], [])
  }

  /** The product that returns its right factor. */
  function Right(): MatMul {
    (a, b) => b
  }

  /** Both updates on the leaf queued alone. */
  lemma LeafQueuedUpdates()
    ensures var sc := ChainScene(LeafQueued());
            && RecalculateOk(sc) && RecalculateAllOk(sc)
            && Recalculate(sc, Right()).globalTransform[2] == Identity()
            && Recalculate(sc, Right()).changedAtThisFrame[2] == [2]
            && RecalculateAllLevels(sc, Right()).globalTransform[2] ==
                 Right()(RecalculateAllLevels(sc, Right()).globalTransform[1], sc.localTransform[2])
            && RecalculateAllLevels(sc, Right()).globalTransform[2] == Zero()
  {
    var d := LeafQueued();
    var sc := ChainScene(d);
    var h := sc.hierarchy;
    ChainParentsAbove();
    assert RecalculateOk(sc) by {
      assert d[0] == [] && d[1] == [];
      assert forall l :: 2 <= l <= MAX_NODE_LEVEL ==> !Reaches(d, 1, l);
    }
    assert MarksAtOwnLevel(h, d) by {
      forall l, i | 0 <= l < MAX_NODE_LEVEL && 0 <= i < |d[l]|
        ensures 0 <= d[l][i] < |h| && h[d[l][i]].level as int == l
      {
        assert l == 2;
      }
    }
    RecalculateAllListed(sc, Right(), 2, 0);
    RecalculateAllUnlisted(sc, Right(), 1);
    RecalculateStopsAtEmptyLevel(sc, Right());
  }

  /** The counterexample: mark `b` on clean lists and update with the product that returns its
      right factor. The as-written update leaves `b`'s global transform at the identity and
      `b` still queued; the every-level update gives it `global[a] * local[b]`, the zero matrix. */
  lemma DeepMarkIsLost()
    ensures Layered(Chain())
    ensures var sc := ChainScene(MarkAsChanged(Chain(), NoDirtyNodes(), 2));
            && RecalculateOk(sc) && RecalculateAllOk(sc)
            && Recalculate(sc, Right()).globalTransform[2] == Identity()
            && Recalculate(sc, Right()).changedAtThisFrame[2] == [2]
            && RecalculateAllLevels(sc, Right()).globalTransform[2] ==
                 Right()(RecalculateAllLevels(sc, Right()).globalTransform[1], sc.localTransform[2])
            && RecalculateAllLevels(sc, Right()).globalTransform[2] != Recalculate(sc, Right()).globalTransform[2]
  {
    MarkLeaf();
    LeafQueuedUpdates();
  }
}
