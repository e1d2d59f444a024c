/** `addNode` keeps the scene graph well formed: the new node is appended to its parent's
    child list, no other list changes, and the level discipline is kept. */
module SceneInvariants {
  import opened Bytes
  import opened Matrix
  import opened Wrappers
  import opened SceneGraph

  /** On a well-formed graph `addNode` always finds the true tail, from the cache or by walking. */
  lemma WellFormedTailReachable(h: seq<Hierarchy>, p: int)
    requires ChainsEnd(h) && CacheSound(h) && 0 <= p < |h|
    ensures TailReachable(h, p)
    ensures h[p].firstChild != -1 ==> TailOf(h, h[p].firstChild) == Last(Kids(h, p))
  {
    var s := h[p].firstChild;
    if s != -1 {
      assert Kids(h, p) != [] && Kids(h, p)[0] == s;
    }
  }

  lemma KidParent(h: seq<Hierarchy>, q: int, x: int)
    requires ChainsEnd(h) && ChildrenAgree(h) && 0 <= q < |h| && x in Kids(h, q)
    ensures 0 <= x < |h| && h[x].parent == q && h[x].level == h[q].level + 1
  {
    var i :| 0 <= i < |Kids(h, q)| && Kids(h, q)[i] == x;
  }

  /** The fields of existing records that `addNode` under an existing parent touches: the
      parent's `firstChild` when it had no children, otherwise the old tail's `nextSibling`
      and the first child's `lastSibling`. Nothing else of an existing record changes. */
  lemma AddChildRecords(sc: Scene, parent: int32, level: int32)
    requires ParallelArrays(sc) && ChainsEnd(sc.hierarchy) && CacheSound(sc.hierarchy) && |sc.hierarchy| < 0x7FFF_FFFF
    requires 0 <= parent < |sc.hierarchy| && TailReachable(sc.hierarchy, parent as int)
    ensures var h := sc.hierarchy;
            var h' := AddNode(sc, parent, level).0.hierarchy;
            var kids := Kids(h, parent as int);
            && (forall x :: 0 <= x < |h| ==> h'[x].parent == h[x].parent && h'[x].level == h[x].level)
            && (forall x :: 0 <= x < |h| && x != parent as int ==> h'[x].firstChild == h[x].firstChild)
            && h'[parent].firstChild == (if kids == [] then |h| else kids[0])
            && (forall x :: 0 <= x < |h| && (kids == [] || x != Last(kids)) ==> h'[x].nextSibling == h[x].nextSibling)
            && (kids != [] ==> h'[Last(kids)].nextSibling == |h|)
            && (forall x :: 0 <= x < |h| && (kids == [] || x != kids[0]) ==> h'[x].lastSibling == h[x].lastSibling)
            && (kids != [] ==> h'[kids[0]].lastSibling == |h|)
  {
    var h := sc.hierarchy;
    var p := parent as int;
    WellFormedTailReachable(h, p);
    var h' := AddNode(sc, parent, level).0.hierarchy;
    assert h'[..|h|] == LinkChild(h, p, |h|);
    forall x | 0 <= x < |h|
      ensures h'[x] == LinkChild(h, p, |h|)[x]
    {
      assert h'[x] == h'[..|h|][x];
    }
  }

  /** The new child list of every node after `addNode` under an existing parent: the parent's
      list gains the new node at its end, whichever way the tail was found; every other list
      is unchanged and the new node has no children. */
  lemma AddChildLists(sc: Scene, parent: int32, level: int32)
    requires ParallelArrays(sc) && |sc.hierarchy| < 0x7FFF_FFFF
    requires ChainsEnd(sc.hierarchy) && ChildrenAgree(sc.hierarchy) && CacheSound(sc.hierarchy)
    requires 0 <= parent < |sc.hierarchy| && TailReachable(sc.hierarchy, parent as int)
    ensures var h := sc.hierarchy;
            var h' := AddNode(sc, parent, level).0.hierarchy;
            && ChildList(h', parent as int) == Some(Kids(h, parent as int) + [|h|])
            && ChildList(h', |h|) == Some([])
            && (forall q :: 0 <= q < |h| && q != parent as int ==> ChildList(h', q) == ChildList(h, q))
  {
    var h := sc.hierarchy;
    var p := parent as int;
    var h' := AddNode(sc, parent, level).0.hierarchy;
    var node := |h|;
    AddChildRecords(sc, parent, level);
    var kids := Kids(h, p);
    if kids != [] {
      KidParent(h, p, Last(kids));
    }
    forall q | 0 <= q < |h| && q != p
      ensures ChildList(h', q) == ChildList(h, q)
    {
      var ks := Kids(h, q);
      forall i | 0 <= i < |ks|
        ensures ks[i] < |h'| && h'[ks[i]].nextSibling == h[ks[i]].nextSibling
      {
        KidParent(h, q, ks[i]);
      }
      SiblingsFrame(h, h', h[q].firstChild, |h|, |h'|, ks);
    }
    assert ChildList(h', node) == Some([]) by { assert h'[node].firstChild == -1; }
    if kids == [] {
      assert h'[p].firstChild == node;
      SiblingsStep(h', node, |h'|);
      assert [node] + [] == [node];
      assert ChildList(h', p) == Some([node]);
      assert kids + [node] == [node];
    } else {
      forall i | 0 <= i < |kids| - 1
        ensures h'[kids[i]].nextSibling == h[kids[i]].nextSibling
      {
        assert h[kids[i]].nextSibling == kids[i + 1] >= 0;
      }
      SiblingsExtend(h, h', h[p].firstChild, |h|, |h'|, kids, node);
    }
  }

  /** `addNode` with `parent = -1` changes no existing record and no child list. */
  lemma AddRootChildLists(sc: Scene, level: int32)
    requires ParallelArrays(sc) && ChainsEnd(sc.hierarchy) && ChildrenAgree(sc.hierarchy)
    requires |sc.hierarchy| < 0x7FFF_FFFF
    ensures var h := sc.hierarchy;
            var h' := AddNode(sc, -1, level).0.hierarchy;
            && h'[..|h|] == h
            && ChildList(h', |h|) == Some([])
            && (forall q :: 0 <= q < |h| ==> ChildList(h', q) == ChildList(h, q))
  {
    var h := sc.hierarchy;
    var h' := AddNode(sc, -1, level).0.hierarchy;
    forall q | 0 <= q < |h|
      ensures ChildList(h', q) == ChildList(h, q)
    {
      assert h'[q] == h[q];
      var ks := Kids(h, q);
      forall i | 0 <= i < |ks|
        ensures ks[i] < |h'| && h'[ks[i]].nextSibling == h[ks[i]].nextSibling
      {
        assert h'[ks[i]] == h[ks[i]];
      }
      SiblingsFrame(h, h', h[q].firstChild, |h|, |h'|, ks);
    }
  }

  lemma AddRootChildrenAgree(sc: Scene, level: int32)
    requires ParallelArrays(sc) && ChainsEnd(sc.hierarchy) && ChildrenAgree(sc.hierarchy)
    requires |sc.hierarchy| < 0x7FFF_FFFF
    ensures var h' := AddNode(sc, -1, level).0.hierarchy;
            ChainsEnd(h') && ChildrenAgree(h')
  {
    var h := sc.hierarchy;
    var h' := AddNode(sc, -1, level).0.hierarchy;
    AddRootChildLists(sc, level);
    assert ChainsEnd(h');
    forall n, i | 0 <= n < |h'| && 0 <= i < |Kids(h', n)|
      ensures h'[Kids(h', n)[i]].parent == n && h'[Kids(h', n)[i]].level == h'[n].level + 1
    {
      assert n < |h|;
      var x := Kids(h, n)[i];
      KidParent(h, n, x);
      assert h'[x] == h'[..|h|][x] && h'[n] == h'[..|h|][n];
    }
  }

  lemma AddRootPreservesWellFormed(sc: Scene, level: int32)
    requires ParallelArrays(sc) && WellFormed(sc.hierarchy) && |sc.hierarchy| < 0x7FFF_FFFF
    requires level == 0
    ensures WellFormed(AddNode(sc, -1, level).0.hierarchy)
  {
    var h := sc.hierarchy;
    var h' := AddNode(sc, -1, level).0.hierarchy;
    AddRootChildLists(sc, level);
    AddRootChildrenAgree(sc, level);
    RootAppendedFrame(h, h');
    RootAppendedParentsList(h, h');
    RootAppendedCacheSound(h, h');
  }

  /** The records of `h` are kept when one record is appended. */
  lemma RootAppendedFrame(h: seq<Hierarchy>, h': seq<Hierarchy>)
    requires |h'| == |h| + 1 && h'[..|h|] == h
    ensures forall x :: 0 <= x < |h| ==> h'[x] == h[x]
  {
    forall x | 0 <= x < |h|
      ensures h'[x] == h[x]
    {
      assert h'[x] == h'[..|h|][x];
    }
  }

  /** Appending a root keeps every non-root on its parent's child list. */
  lemma RootAppendedParentsList(h: seq<Hierarchy>, h': seq<Hierarchy>)
    requires WellFormed(h) && Layered(h')
    requires |h'| == |h| + 1 && h'[|h|].parent == -1
    requires forall x :: 0 <= x < |h| ==> h'[x] == h[x]
    requires forall q :: 0 <= q < |h| ==> ChildList(h', q) == ChildList(h, q)
    ensures ParentsList(h')
  {
    forall c | 0 <= c < |h'| && h'[c].parent >= 0
      ensures c in Kids(h', h'[c].parent)
    {
      assert c < |h|;
      assert c in Kids(h, h[c].parent);
    }
  }

  /** Appending a root keeps every `lastSibling` cache sound. */
  lemma RootAppendedCacheSound(h: seq<Hierarchy>, h': seq<Hierarchy>)
    requires WellFormed(h) && ChainsEnd(h')
    requires |h'| == |h| + 1 && ChildList(h', |h|) == Some([])
    requires forall x :: 0 <= x < |h| ==> h'[x] == h[x]
    requires forall q :: 0 <= q < |h| ==> ChildList(h', q) == ChildList(h, q)
    ensures CacheSound(h')
  {
    forall p | 0 <= p < |h'| && Kids(h', p) != []
      ensures h'[Kids(h', p)[0]].lastSibling <= -1 || h'[Kids(h', p)[0]].lastSibling == Last(Kids(h', p))
    {
      assert p < |h|;
      assert Kids(h', p) == Kids(h, p);
      assert h'[Kids(h, p)[0]] == h[Kids(h, p)[0]];
    }
  }

  lemma AddChildChildrenAgree(sc: Scene, parent: int32, level: int32)
    requires ParallelArrays(sc) && |sc.hierarchy| < 0x7FFF_FFFF
    requires ChainsEnd(sc.hierarchy) && ChildrenAgree(sc.hierarchy) && CacheSound(sc.hierarchy)
    requires 0 <= parent < |sc.hierarchy| && level as int == sc.hierarchy[parent].level as int + 1
    ensures TailReachable(sc.hierarchy, parent as int)
    ensures ChainsEnd(AddNode(sc, parent, level).0.hierarchy)
    ensures ChildrenAgree(AddNode(sc, parent, level).0.hierarchy)
  {
    var h := sc.hierarchy;
    var p := parent as int;
    WellFormedTailReachable(h, p);
    var h' := AddNode(sc, parent, level).0.hierarchy;
    var node := |h|;
    AddChildRecords(sc, parent, level);
    AddChildLists(sc, parent, level);
    var kids := Kids(h, p);
    assert ChainsEnd(h') by {
      forall q | 0 <= q < |h'|
        ensures ChildList(h', q).Some?
      {
        if q < |h| && q != p {
          assert ChildList(h', q) == ChildList(h, q);
        }
      }
    }
    forall n, i | 0 <= n < |h'| && 0 <= i < |Kids(h', n)|
      ensures h'[Kids(h', n)[i]].parent == n && h'[Kids(h', n)[i]].level == h'[n].level + 1
    {
      var x := Kids(h', n)[i];
      if n == p {
        if i < |kids| {
          assert x == kids[i];
          KidParent(h, n, x);
        } else {
          assert x == node;
        }
      } else {
        assert n < |h|;
        assert Kids(h', n) == Kids(h, n);
        KidParent(h, n, x);
      }
    }
  }

  lemma AddChildRoots(sc: Scene, parent: int32, level: int32)
    requires ParallelArrays(sc) && |sc.hierarchy| < 0x7FFF_FFFF
    requires RangesOk(sc.hierarchy) && RootsDetached(sc.hierarchy)
    requires ChainsEnd(sc.hierarchy) && ChildrenAgree(sc.hierarchy) && CacheSound(sc.hierarchy)
    requires 0 <= parent < |sc.hierarchy| && level as int == sc.hierarchy[parent].level as int + 1
    requires level < MAX_NODE_LEVEL as int32
    ensures TailReachable(sc.hierarchy, parent as int)
    ensures var h' := AddNode(sc, parent, level).0.hierarchy;
            RangesOk(h') && RootsDetached(h')
  {
    var h := sc.hierarchy;
    var p := parent as int;
    WellFormedTailReachable(h, p);
    var h' := AddNode(sc, parent, level).0.hierarchy;
    AddChildRecords(sc, parent, level);
    var kids := Kids(h, p);
    assert RangesOk(h');
    forall c | 0 <= c < |h'| && h'[c].parent == -1
      ensures h'[c].level == 0 && h'[c].nextSibling == -1
    {
      assert c < |h|;
      if kids != [] {
        KidParent(h, p, Last(kids));
      }
    }
  }

  lemma AddChildParentListed(sc: Scene, parent: int32, level: int32, c: int)
    requires ParallelArrays(sc) && |sc.hierarchy| < 0x7FFF_FFFF
    requires RangesOk(sc.hierarchy) && ChainsEnd(sc.hierarchy) && ParentsList(sc.hierarchy)
    requires ChildrenAgree(sc.hierarchy) && CacheSound(sc.hierarchy)
    requires 0 <= parent < |sc.hierarchy| && level as int == sc.hierarchy[parent].level as int + 1
    requires level < MAX_NODE_LEVEL as int32 && TailReachable(sc.hierarchy, parent as int)
    requires var h' := AddNode(sc, parent, level).0.hierarchy;
             0 <= c < |h'| && 0 <= h'[c].parent as int < |h'| && ChildList(h', h'[c].parent as int).Some?
    ensures var h' := AddNode(sc, parent, level).0.hierarchy;
            c in Kids(h', h'[c].parent)
  {
    var h := sc.hierarchy;
    var p := parent as int;
    var h' := AddNode(sc, parent, level).0.hierarchy;
    var node := |h|;
    AddChildRecords(sc, parent, level);
    AddChildLists(sc, parent, level);
    var kids := Kids(h, p);
    if c < |h| {
      var q := h[c].parent as int;
      assert c in Kids(h, q);
      if q == p {
        assert Kids(h', q) == kids + [node];
      } else {
        assert Kids(h', q) == Kids(h, q);
      }
    } else {
      assert Kids(h', p) == kids + [node];
    }
  }

  lemma AddChildParentsList(sc: Scene, parent: int32, level: int32)
    requires ParallelArrays(sc) && |sc.hierarchy| < 0x7FFF_FFFF
    requires RangesOk(sc.hierarchy) && ChainsEnd(sc.hierarchy) && ParentsList(sc.hierarchy)
    requires ChildrenAgree(sc.hierarchy) && CacheSound(sc.hierarchy)
    requires 0 <= parent < |sc.hierarchy| && level as int == sc.hierarchy[parent].level as int + 1
    requires level < MAX_NODE_LEVEL as int32
    ensures TailReachable(sc.hierarchy, parent as int)
    ensures var h' := AddNode(sc, parent, level).0.hierarchy;
            RangesOk(h') && ChainsEnd(h') && ParentsList(h')
  {
    var h := sc.hierarchy;
    WellFormedTailReachable(h, parent as int);
    var h' := AddNode(sc, parent, level).0.hierarchy;
    AddChildRecords(sc, parent, level);
    AddChildCacheSound(sc, parent, level);
    assert RangesOk(h');
    forall c | 0 <= c < |h'| && h'[c].parent >= 0
      ensures c in Kids(h', h'[c].parent)
    {
      AddChildParentListed(sc, parent, level, c);
    }
  }

  lemma AddChildCacheSound(sc: Scene, parent: int32, level: int32)
    requires ParallelArrays(sc) && |sc.hierarchy| < 0x7FFF_FFFF
    requires ChainsEnd(sc.hierarchy) && ChildrenAgree(sc.hierarchy) && CacheSound(sc.hierarchy)
    requires 0 <= parent < |sc.hierarchy| && level as int == sc.hierarchy[parent].level as int + 1
    ensures TailReachable(sc.hierarchy, parent as int)
    ensures var h' := AddNode(sc, parent, level).0.hierarchy;
            ChainsEnd(h') && CacheSound(h')
  {
    var h := sc.hierarchy;
    var p := parent as int;
    WellFormedTailReachable(h, p);
    var h' := AddNode(sc, parent, level).0.hierarchy;
    var node := |h|;
    AddChildRecords(sc, parent, level);
    AddChildLists(sc, parent, level);
    AddChildChildrenAgree(sc, parent, level);
    var kids := Kids(h, p);
    forall q | 0 <= q < |h'| && Kids(h', q) != []
      ensures h'[Kids(h', q)[0]].lastSibling <= -1 || h'[Kids(h', q)[0]].lastSibling == Last(Kids(h', q))
    {
      if q == p {
        assert Kids(h', q) == kids + [node];
      } else {
        assert q < |h|;
        assert Kids(h', q) == Kids(h, q);
        var f := Kids(h, q)[0];
        KidParent(h, q, f);
        if kids != [] {
          KidParent(h, p, kids[0]);
        }
      }
    }
  }

  /** `addNode` keeps the graph well formed when it is given the level the discipline asks
      for: 0 for a root, the parent's level plus one (below MAX_NODE_LEVEL) otherwise. */
  lemma AddNodePreservesWellFormed(sc: Scene, parent: int32, level: int32)
    requires ParallelArrays(sc) && WellFormed(sc.hierarchy) && |sc.hierarchy| < 0x7FFF_FFFF
    requires ValidPlacement(sc.hierarchy, parent as int, level as int)
    ensures parent > -1 ==> TailReachable(sc.hierarchy, parent as int)
    ensures WellFormed(AddNode(sc, parent, level).0.hierarchy)
  {
    if parent == -1 {
      AddRootPreservesWellFormed(sc, level);
    } else {
      AddChildChildrenAgree(sc, parent, level);
      AddChildRoots(sc, parent, level);
      AddChildParentsList(sc, parent, level);
      AddChildCacheSound(sc, parent, level);
    }
  }
}
