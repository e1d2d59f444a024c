/** `markAsChanged`: pushing a node and all of its descendants onto the dirty list of their
    own level, against the preorder subtree as the reference for "all descendants". */
module SceneMarking {
  import opened SceneGraph

  /** The nodes of `xs` that sit at level `l`, in order. */
  function AtLevel(h: seq<Hierarchy>, xs: seq<int>, l: int): seq<int>
    requires forall i :: 0 <= i < |xs| ==> 0 <= xs[i] < |h|
  {
    if xs == [] then []
    else (if h[xs[0]].level as int == l then [xs[0]] else []) + AtLevel(h, xs[1..], l)
  }

  /** `AtLevel` keeps exactly the elements at level `l`. */
  lemma {:induction false} AtLevelMembers(h: seq<Hierarchy>, xs: seq<int>, l: int, x: int)
    requires forall i :: 0 <= i < |xs| ==> 0 <= xs[i] < |h|
    ensures x in AtLevel(h, xs, l) <==> x in xs && h[x].level as int == l
  {
    if xs != [] {
      AtLevelMembers(h, xs[1..], l, x);
      assert xs == [xs[0]] + xs[1..];
    }
  }

  lemma ConcatAssoc(a: seq<int>, b: seq<int>, c: seq<int>)
    ensures (a + b) + c == a + (b + c)
  {
  }

  lemma {:induction false} AtLevelAppend(h: seq<Hierarchy>, a: seq<int>, b: seq<int>, l: int)
    requires forall i :: 0 <= i < |a| ==> 0 <= a[i] < |h|
    requires forall i :: 0 <= i < |b| ==> 0 <= b[i] < |h|
    ensures AtLevel(h, a + b, l) == AtLevel(h, a, l) + AtLevel(h, b, l)
  {
    if a != [] {
      var head := if h[a[0]].level as int == l then [a[0]] else [];
      assert (a + b)[0] == a[0];
      assert (a + b)[1..] == a[1..] + b;
      calc {
        AtLevel(h, a + b, l);
        head + AtLevel(h, a[1..] + b, l);
        { AtLevelAppend(h, a[1..], b, l); }
        head + (AtLevel(h, a[1..], l) + AtLevel(h, b, l));
        (head + AtLevel(h, a[1..], l)) + AtLevel(h, b, l);
      }
    } else {
      assert a + b == b;
    }
  }

  // ---------------------------------------------------------------------------------------
  // The subtree of a node

  /** Node `n` followed by the subtrees of its children in child-list order. On a layered
      graph a child sits one level deeper than its parent and no level reaches
      MAX_NODE_LEVEL, which bounds the recursion. */
  function Subtree(h: seq<Hierarchy>, n: int): (r: seq<int>)
    requires Layered(h) && 0 <= n < |h|
    ensures r != [] && r[0] == n
    ensures forall i :: 0 <= i < |r| ==> 0 <= r[i] < |h| && h[r[i]].level >= h[n].level
    decreases MAX_NODE_LEVEL - h[n].level as int, 0
  {
    [n] + Forest(h, Kids(h, n), h[n].level as int + 1)
  }

  /** Children lists: every element of `xs` sits at level `lv`. */
  ghost predicate AllAtLevel(h: seq<Hierarchy>, xs: seq<int>, lv: int) {
    forall i :: 0 <= i < |xs| ==> 0 <= xs[i] < |h| && h[xs[i]].level as int == lv
  }

  function Forest(h: seq<Hierarchy>, xs: seq<int>, lv: int): (r: seq<int>)
    requires Layered(h) && AllAtLevel(h, xs, lv)
    ensures forall i :: 0 <= i < |r| ==> 0 <= r[i] < |h| && h[r[i]].level >= lv
    decreases MAX_NODE_LEVEL - lv, 1, |xs|
  {
    if xs == [] then [] else Subtree(h, xs[0]) + Forest(h, xs[1..], lv)
  }

  lemma KidsAtLevel(h: seq<Hierarchy>, n: int)
    requires Layered(h) && 0 <= n < |h|
    ensures AllAtLevel(h, Kids(h, n), h[n].level as int + 1)
  {
  }

  lemma {:induction false} ForestMember(h: seq<Hierarchy>, xs: seq<int>, lv: int, x: int)
    requires Layered(h) && AllAtLevel(h, xs, lv)
    ensures x in Forest(h, xs, lv) <==> exists j :: 0 <= j < |xs| && x in Subtree(h, xs[j])
    decreases |xs|
  {
    if xs != [] {
      ForestMember(h, xs[1..], lv, x);
      if x in Forest(h, xs[1..], lv) {
        var j :| 0 <= j < |xs[1..]| && x in Subtree(h, xs[1..][j]);
        assert x in Subtree(h, xs[j + 1]);
      }
      if exists j :: 0 <= j < |xs| && x in Subtree(h, xs[j]) {
        var j :| 0 <= j < |xs| && x in Subtree(h, xs[j]);
        if j > 0 {
          assert xs[1..][j - 1] == xs[j];
        }
      }
    }
  }

  /** Every node of the subtree other than `n` has its parent in the subtree, one level up. */
  lemma {:induction false} SubtreeParent(h: seq<Hierarchy>, n: int, x: int)
    requires Layered(h) && 0 <= n < |h|
    requires x in Subtree(h, n) && x != n
    ensures 0 <= h[x].parent < |h| && h[x].parent as int in Subtree(h, n)
    ensures h[x].level == h[h[x].parent].level + 1 && h[x].level > h[n].level
    decreases MAX_NODE_LEVEL - h[n].level as int
  {
    var kids := Kids(h, n);
    var lv := h[n].level as int + 1;
    KidsAtLevel(h, n);
    ForestMember(h, kids, lv, x);
    var j :| 0 <= j < |kids| && x in Subtree(h, kids[j]);
    var k := kids[j];
    ForestMember(h, kids, lv, k);
    if x == k {
      assert h[k].parent as int == n;
    } else {
      SubtreeParent(h, k, x);
      ForestMember(h, kids, lv, h[x].parent as int);
    }
  }

  /** The subtree is closed under taking children. */
  lemma {:induction false} SubtreeChildren(h: seq<Hierarchy>, n: int, y: int, c: int)
    requires Layered(h) && 0 <= n < |h|
    requires y in Subtree(h, n) && c in Kids(h, y)
    ensures c in Subtree(h, n)
    decreases MAX_NODE_LEVEL - h[n].level as int
  {
    var kids := Kids(h, n);
    var lv := h[n].level as int + 1;
    KidsAtLevel(h, n);
    if y == n {
      var j :| 0 <= j < |kids| && kids[j] == c;
      ForestMember(h, kids, lv, c);
    } else {
      ForestMember(h, kids, lv, y);
      var j :| 0 <= j < |kids| && y in Subtree(h, kids[j]);
      SubtreeChildren(h, kids[j], y, c);
      ForestMember(h, kids, lv, c);
    }
  }

  /** The levels present in a subtree are contiguous: between `n`'s level and the level of
      any node of the subtree, every level holds some node of the subtree. */
  lemma {:induction false} SubtreeLevelsContiguous(h: seq<Hierarchy>, n: int, x: int, l: int)
    requires Layered(h) && 0 <= n < |h|
    requires x in Subtree(h, n) && h[n].level as int <= l <= h[x].level as int
    ensures AtLevel(h, Subtree(h, n), l) != []
    decreases h[x].level as int - l
  {
    if l == h[x].level as int {
      AtLevelMembers(h, Subtree(h, n), l, x);
    } else {
      SubtreeParent(h, n, x);
      SubtreeLevelsContiguous(h, n, h[x].parent as int, l);
    }
  }

  // ---------------------------------------------------------------------------------------
  // markAsChanged

  /** `changedAtThisFrame[l].push_back(x)`: list `l` gains `x` at its end, every other list
      is kept. */
  function Push(d: DirtyLists, l: int, x: int): (r: DirtyLists)
    requires 0 <= l < MAX_NODE_LEVEL
    ensures r[l] == d[l] + [x]
    ensures forall k :: 0 <= k < MAX_NODE_LEVEL && k != l ==> r[k] == d[k]
  {
    d[l := d[l] + [x]]
  }

  /** `markAsChanged(scene, node)` on the dirty lists: push `node` on its level's list, then
      mark each child in child-list order. */
  function MarkAsChanged(h: seq<Hierarchy>, d: DirtyLists, node: int): (r: DirtyLists)
    requires Layered(h) && 0 <= node < |h|
    ensures forall l :: 0 <= l < MAX_NODE_LEVEL ==> d[l] <= r[l]
    ensures var lv := h[node].level as int;
            |d[lv]| < |r[lv]| && r[lv][|d[lv]|] == node
    decreases MAX_NODE_LEVEL - h[node].level as int, 0
  {
    MarkChildren(h, Push(d, h[node].level as int, node), Kids(h, node), h[node].level as int + 1)
  }

  /** The `for` loop of `markAsChanged` over the remaining siblings `xs`. */
  function MarkChildren(h: seq<Hierarchy>, d: DirtyLists, xs: seq<int>, lv: int): (r: DirtyLists)
    requires Layered(h) && AllAtLevel(h, xs, lv)
    ensures forall l :: 0 <= l < MAX_NODE_LEVEL ==> d[l] <= r[l]
    decreases MAX_NODE_LEVEL - lv, 1, |xs|
  {
    if xs == [] then d else MarkChildren(h, MarkAsChanged(h, d, xs[0]), xs[1..], lv)
  }

  /** `markAsChanged` only appends, and what it appends to level `l` are the nodes of the
      subtree at level `l`, in preorder. */
  lemma {:induction false} MarkAsChangedAppends(h: seq<Hierarchy>, d: DirtyLists, node: int, l: int)
    requires Layered(h) && 0 <= node < |h| && 0 <= l < MAX_NODE_LEVEL
    ensures MarkAsChanged(h, d, node)[l] == d[l] + AtLevel(h, Subtree(h, node), l)
    decreases MAX_NODE_LEVEL - h[node].level as int, 0
  {
    var lv := h[node].level as int;
    KidsAtLevel(h, node);
    MarkChildrenAppends(h, Push(d, lv, node), Kids(h, node), lv + 1, l);
    MarkAsChangedStep(h, d, node, l);
  }

  /** The step of `MarkAsChangedAppends`: from what marking the children appends to what
      marking the node appends. */
  lemma MarkAsChangedStep(h: seq<Hierarchy>, d: DirtyLists, node: int, l: int)
    requires Layered(h) && 0 <= node < |h| && 0 <= l < MAX_NODE_LEVEL
    requires AllAtLevel(h, Kids(h, node), h[node].level as int + 1)
    requires var lv := h[node].level as int;
             var d1 := Push(d, lv, node);
             MarkChildren(h, d1, Kids(h, node), lv + 1)[l] == d1[l] + AtLevel(h, Forest(h, Kids(h, node), lv + 1), l)
    ensures MarkAsChanged(h, d, node)[l] == d[l] + AtLevel(h, Subtree(h, node), l)
  {
    var lv := h[node].level as int;
    PushAppend(h, d, node, l, Forest(h, Kids(h, node), lv + 1));
  }

  /** Pushing `node` and then appending the level-`l` part of `f` appends the level-`l`
      part of `[node] + f`. */
  lemma PushAppend(h: seq<Hierarchy>, d: DirtyLists, node: int, l: int, f: seq<int>)
    requires 0 <= node < |h| && 0 <= h[node].level as int < MAX_NODE_LEVEL && 0 <= l < MAX_NODE_LEVEL
    requires forall i :: 0 <= i < |f| ==> 0 <= f[i] < |h|
    ensures Push(d, h[node].level as int, node)[l] + AtLevel(h, f, l) == d[l] + AtLevel(h, [node] + f, l)
  {
    var lv := h[node].level as int;
    var d1 := Push(d, lv, node);
    assert d1[l] == d[l] + AtLevel(h, [node], l) by {
      assert [node][1..] == [];
      if lv == l {
        assert AtLevel(h, [node], l) == [node];
      } else {
        assert AtLevel(h, [node], l) == [];
        assert d[l] + [] == d[l];
      }
    }
    AtLevelAppend(h, [node], f, l);
    ConcatAssoc(d[l], AtLevel(h, [node], l), AtLevel(h, f, l));
  }

  lemma {:induction false} MarkChildrenAppends(h: seq<Hierarchy>, d: DirtyLists, xs: seq<int>, lv: int, l: int)
    requires Layered(h) && AllAtLevel(h, xs, lv) && 0 <= l < MAX_NODE_LEVEL
    ensures MarkChildren(h, d, xs, lv)[l] == d[l] + AtLevel(h, Forest(h, xs, lv), l)
    decreases MAX_NODE_LEVEL - lv, 1, |xs|
  {
    if xs == [] {
      assert d[l] + [] == d[l];
    } else {
      MarkAsChangedAppends(h, d, xs[0], l);
      MarkChildrenAppends(h, MarkAsChanged(h, d, xs[0]), xs[1..], lv, l);
      MarkChildrenStep(h, d, xs, lv, l);
    }
  }

  /** The step of `MarkChildrenAppends`: the first sibling's subtree, then the rest. */
  lemma MarkChildrenStep(h: seq<Hierarchy>, d: DirtyLists, xs: seq<int>, lv: int, l: int)
    requires Layered(h) && AllAtLevel(h, xs, lv) && 0 <= l < MAX_NODE_LEVEL && xs != []
    requires MarkAsChanged(h, d, xs[0])[l] == d[l] + AtLevel(h, Subtree(h, xs[0]), l)
    requires MarkChildren(h, MarkAsChanged(h, d, xs[0]), xs[1..], lv)[l] ==
               MarkAsChanged(h, d, xs[0])[l] + AtLevel(h, Forest(h, xs[1..], lv), l)
    ensures MarkChildren(h, d, xs, lv)[l] == d[l] + AtLevel(h, Forest(h, xs, lv), l)
  {
    var t := Subtree(h, xs[0]);
    var f := Forest(h, xs[1..], lv);
    assert MarkChildren(h, d, xs, lv) == MarkChildren(h, MarkAsChanged(h, d, xs[0]), xs[1..], lv);
    AtLevelAppend(h, t, f, l);
    ConcatAssoc(d[l], AtLevel(h, t, l), AtLevel(h, f, l));
    assert Forest(h, xs, lv) == t + f;
  }
}
