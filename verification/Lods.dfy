/** `processLods`, shared in the same shape by both conversion tools: the original index
    list is LOD 0, and every further LOD asks the mesh simplifier for half of the indices of
    the one before. The simplifier, its sloppy variant and the vertex-cache optimiser are
    library calls; they enter as parameters that promise only what their interfaces do (no
    more indices out than in; reordering keeps the count). */
module Lods {
  import opened Bytes

  /** `meshopt_simplify` and `meshopt_simplifySloppy`: from an index list, a vertex count
      and a target index count, the simplified index list, never longer than the input. */
  type Simplifier = f: (seq<uint32>, nat, nat) -> seq<uint32> | forall s, v, t :: |f(s, v, t)| <= |s|
    witness (s: seq<uint32>, v: nat, t: nat) => s

  /** `meshopt_optimizeVertexCache`: a reordering of the index list. */
  type Reorder = f: (seq<uint32>, nat) -> seq<uint32> | forall s, v :: |f(s, v)| == |s|
    witness (s: seq<uint32>, v: nat) => s

  /** The loop stops before LOD `LOD_LIMIT`: `LOD < 8` in both tools. */
  const LOD_LIMIT: nat := 8

  /** The simplifier did not reach a 10% reduction: `numOptIndices * 1.1f > indices.size()`,
      the float product truncated to an integer. */
  function TooLittleReduction(n: nat, size: nat): (r: bool)
    ensures r <==> 10 * (size + 1) <= 11 * n
  {
    (n * 11) / 10 > size
  }

  /** Each list is at most as long as the one before it. */
  predicate NonIncreasing(lods: seq<seq<uint32>>) {
    forall k :: 0 < k < |lods| ==> |lods[k]| <= |lods[k - 1]|
  }

  /** The loop of `processLods` from LOD `lod` on, `indices` being the last list pushed and
      `target` the last target. The simplifier writes its output over the front of the
      buffer, so when the sloppy variant runs it sees the simplified indices followed by
      the tail of the previous list. Every list it returns is at most as long as the one
      before it. */
  function LodSteps(indices: seq<uint32>, target: nat, lod: nat, maxLods: nat, vertexCount: nat,
                    simplify: Simplifier, sloppy: Simplifier, optimize: Reorder): (r: seq<seq<uint32>>)
    requires 1 <= lod <= maxLods
    ensures |r| <= maxLods - lod
    ensures r != [] ==> |r[0]| <= |indices|
    ensures NonIncreasing(r)
    decreases maxLods - lod
  {
    if !(target > 1024 && lod < maxLods) then []
    else
      var half := |indices| / 2;
      var first := simplify(indices, vertexCount, half);
      if !TooLittleReduction(|first|, |indices|) then
        var next := optimize(first, vertexCount);
        [next] + LodSteps(next, half, lod + 1, maxLods, vertexCount, simplify, sloppy, optimize)
      else if lod == 1 then []
      else
        var buffer := first + indices[|first|..];
        var second := sloppy(buffer, vertexCount, half);
        if |second| == |indices| then []
        else
          var next := optimize(second, vertexCount);
          [next] + LodSteps(next, half, lod + 1, maxLods, vertexCount, simplify, sloppy, optimize)
  }

  /** `processLods`: LOD 0 is the input itself, there are at most `maxLods` lists, and each
      is at most as long as the one before. */
  function ProcessLods(indices: seq<uint32>, vertexCount: nat, maxLods: nat,
                       simplify: Simplifier, sloppy: Simplifier, optimize: Reorder): (r: seq<seq<uint32>>)
    requires maxLods >= 1
    ensures 1 <= |r| <= maxLods
    ensures r[0] == indices
    ensures NonIncreasing(r)
  {
    var rest := LodSteps(indices, |indices|, 1, maxLods, vertexCount, simplify, sloppy, optimize);
    assert forall k :: 1 < k < 1 + |rest| ==> ([indices] + rest)[k] == rest[k - 1];
    [indices] + rest
  }

  /** A mesh of at most 1024 indices has no LOD but its own. */
  lemma SmallMeshSingleLod(indices: seq<uint32>, vertexCount: nat, maxLods: nat,
                           simplify: Simplifier, sloppy: Simplifier, optimize: Reorder)
    requires maxLods >= 1 && |indices| <= 1024
    ensures ProcessLods(indices, vertexCount, maxLods, simplify, sloppy, optimize) == [indices]
  {
  }

  /** When the first simplification falls short of a 10% reduction the loop gives up at
      once: the sloppy variant is only tried from LOD 2 on. */
  lemma FirstShortfallSingleLod(indices: seq<uint32>, vertexCount: nat, maxLods: nat,
                                simplify: Simplifier, sloppy: Simplifier, optimize: Reorder)
    requires maxLods >= 1
    requires TooLittleReduction(|simplify(indices, vertexCount, |indices| / 2)|, |indices|)
    ensures ProcessLods(indices, vertexCount, maxLods, simplify, sloppy, optimize) == [indices]
  {
  }

  /** A simplifier that keeps the first half of the indices, whatever the target. */
  const HALVE: Simplifier := (s: seq<uint32>, v: nat, t: nat) => s[..|s| / 2]

  /** A vertex-cache optimiser that leaves the order as it is. */
  const KEEP_ORDER: Reorder := (s: seq<uint32>, v: nat) => s

  /** With a simplifier that always halves, at least `1025 * 2^(L - 1 - lod)` indices at
      LOD `lod` yield one list per remaining LOD up to `L`: the list the last pass starts
      from still has more than 1024 indices. */
  lemma {:induction false} HalvingSteps(indices: seq<uint32>, lod: nat, maxLods: nat, vertexCount: nat)
    requires 1 <= lod <= maxLods
    requires lod < maxLods ==> |indices| >= 1025 * Pow2(maxLods - 1 - lod)
    ensures |LodSteps(indices, |indices|, lod, maxLods, vertexCount, HALVE, HALVE, KEEP_ORDER)| == maxLods - lod
    decreases maxLods - lod
  {
    if lod < maxLods {
      var half := |indices| / 2;
      Pow2Mono(0, maxLods - 1 - lod);
      assert Pow2(0) == 1;
      var first := HALVE(indices, vertexCount, half);
      assert !TooLittleReduction(|first|, |indices|);
      if lod + 1 < maxLods {
        assert Pow2(maxLods - 1 - lod) == 2 * Pow2(maxLods - 1 - (lod + 1));
        assert |first| == half >= 1025 * Pow2(maxLods - 1 - (lod + 1));
      }
      HalvingSteps(first, lod + 1, maxLods, vertexCount);
    }
  }

  /** 65600 indices or more, halved at every step, produce `LOD_LIMIT`, that is eight,
      lists: the seventh pass starts from a sixth halving of at least 1025 indices. */
  lemma EightLods(indices: seq<uint32>, vertexCount: nat)
    requires |indices| >= 65600
    ensures |ProcessLods(indices, vertexCount, LOD_LIMIT, HALVE, HALVE, KEEP_ORDER)| == LOD_LIMIT
  {
    assert Pow2(6) == 64 by {
      assert Pow2(1) == 2;
      assert Pow2(3) == 8 by { assert Pow2(2) == 4; }
      assert Pow2(5) == 32 by { assert Pow2(4) == 16; }
    }
    HalvingSteps(indices, 1, LOD_LIMIT, vertexCount);
  }
}
