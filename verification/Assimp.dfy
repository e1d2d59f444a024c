/** The parts of an imported assimp scene the converters read: meshes with their vertex
    attributes and faces, and the node tree. Floats are bit patterns; the importer itself
    is not modelled. */
module Assimp {
  import opened Wrappers
  import opened Bytes
  import opened Matrix

  datatype Vec3f = Vec3f(x: Float32, y: Float32, z: Float32)

  /** `aiMesh`: positions, normals, the first texture-coordinate set if there is one, the
      faces as index lists, and the material index. */
  datatype AiMesh = AiMesh(
    vertices: seq<Vec3f>,
    normals: seq<Vec3f>,
    texCoords: Option<seq<Vec3f>>,
    faces: seq<seq<uint32>>,
    materialIndex: uint32)

  /** Every attribute array has one entry per vertex, and the counts fit `unsigned int`. */
  predicate ValidMesh(m: AiMesh) {
    && |m.normals| == |m.vertices|
    && (m.texCoords.Some? ==> |m.texCoords.value| == |m.vertices|)
    && |m.vertices| < TWO_32 && |m.faces| < TWO_32
  }

  /** The texture coordinate of vertex `i`: `aiVector3D()` (all zero) without a set. */
  function TexCoord(m: AiMesh, i: nat): Vec3f
    requires ValidMesh(m) && i < |m.vertices|
  {
    if m.texCoords.Some? then m.texCoords.value[i] else Vec3f(0, 0, 0)
  }

  /** `aiNode`: a name, the indices of its meshes, a local transform and the children. */
  datatype AiNode = AiNode(name: string, meshes: seq<uint32>, transform: Mat4, children: seq<AiNode>)

  /** Faces with exactly three indices. */
  function TriangleCount(faces: seq<seq<uint32>>): (r: nat)
    ensures r <= |faces|
  {
    if faces == [] then 0 else (if |faces[0]| == 3 then 1 else 0) + TriangleCount(faces[1..])
  }

  /** Every face is a triangle exactly when none is skipped. */
  lemma {:induction false} AllTriangles(faces: seq<seq<uint32>>)
    ensures TriangleCount(faces) == |faces| <==> forall i :: 0 <= i < |faces| ==> |faces[i]| == 3
  {
    if faces != [] {
      AllTriangles(faces[1..]);
      assert forall i :: 1 <= i < |faces| ==> faces[i] == faces[1..][i - 1];
    }
  }

  /** The indices pushed for the faces: each triangle's three indices plus `offset` in
      32-bit arithmetic; other faces are skipped. */
  function Triangles(faces: seq<seq<uint32>>, offset: uint32): (r: seq<uint32>)
    ensures |r| == 3 * TriangleCount(faces)
  {
    if faces == [] then []
    else
      var f := faces[0];
      (if |f| == 3 then [U32(f[0] + offset), U32(f[1] + offset), U32(f[2] + offset)] else [])
      + Triangles(faces[1..], offset)
  }

  /** The pushed indices are the faces' own indices, each rebased by `offset`. */
  lemma {:induction false} TrianglesRebased(faces: seq<seq<uint32>>, offset: uint32)
    ensures forall k :: 0 <= k < |Triangles(faces, offset)| ==>
              Triangles(faces, offset)[k] == U32(Triangles(faces, 0)[k] + offset)
  {
    if faces != [] {
      TrianglesRebased(faces[1..], offset);
      var f := faces[0];
      var r, own := Triangles(faces, offset), Triangles(faces, 0);
      var r', own' := Triangles(faces[1..], offset), Triangles(faces[1..], 0);
      if |f| == 3 {
        assert U32(f[0] + 0) == f[0] && U32(f[1] + 0) == f[1] && U32(f[2] + 0) == f[2];
        assert forall k :: 3 <= k < |r| ==> r[k] == r'[k - 3] && own[k] == own'[k - 3];
      } else {
        assert r == r' && own == own';
        assert forall k :: 0 <= k < |r| ==> r[k] == r'[k] && own[k] == own'[k];
      }
    }
  }
}
