/** ModelManager::assimpGetMeshData (model.cpp:40-84): flattening one mesh
    into the manager's interleaved vertex buffer (position, normal and the
    first texture coordinate, eight floats per vertex) and its 16-bit index
    buffer (the first three indices of every face).

    The Assimp mesh is abstracted to sequences: positions, normals, an
    optional first texture-coordinate set, and faces as index lists. */
module MeshData {
  import opened ScreenMath

  /** `unsigned int`, the type of an Assimp face index. */
  type uint32 = n: int | 0 <= n < 0x1_0000_0000

  /** `uint16_t`, the element type of `indexBuff` (model.hpp:34). */
  type uint16 = n: int | 0 <= n < 0x1_0000

  datatype Option<T> = None | Some(value: T)

  /** An `aiFace`: its `mIndices`. */
  datatype Face = Face(indices: seq<uint32>)

  /** An `aiMesh`: `mVertices`, `mNormals`, `mTextureCoords[0]` when
      `HasTextureCoords(0)`, and `mFaces`. */
  datatype Mesh = Mesh(vertices: seq<Vec3>, normals: seq<Vec3>, texCoords: Option<seq<Vec3>>, faces: seq<Face>)

  /** What the function reads without checking: a normal and, when there
      is a texture-coordinate set, a coordinate for every vertex, and three
      indices in every face (the loader triangulates). */
  predicate WellFormed(m: Mesh)
  {
    && |m.normals| == |m.vertices|
    && (m.texCoords.Some? ==> |m.texCoords.value| == |m.vertices|)
    && forall f :: 0 <= f < |m.faces| ==> |m.faces[f].indices| >= 3
  }

  /** Lines 47-67: the eight floats pushed for vertex `v`. */
  function VertexRecord(m: Mesh, v: nat): (r: seq<real>)
    requires WellFormed(m) && v < |m.vertices|
    ensures |r| == 8
  {
    var p, n := m.vertices[v], m.normals[v];
    var uv := if m.texCoords.Some? then [m.texCoords.value[v].x, m.texCoords.value[v].y] else [0.0, 0.0];
    [p.x, p.y, p.z, n.x, n.y, n.z] + uv
  }

  /** Lines 45-73: what the vertex loop appends for the first `n` vertices. */
  function VertexData(m: Mesh, n: nat): seq<real>
    requires WellFormed(m) && n <= |m.vertices|
  {
    if n == 0 then [] else VertexData(m, n - 1) + VertexRecord(m, n - 1)
  }

  /** The conversion of `unsigned int` to `uint16_t` on push_back: the value modulo 2^16. */
  function Narrow(i: uint32): (s: uint16)
    ensures i < 0x1_0000 ==> s == i
    ensures (i - s) % 0x1_0000 == 0
  {
    i % 0x1_0000
  }

  /** Lines 77-80: the three indices pushed for face `f`. */
  function FaceRecord(m: Mesh, f: nat): (r: seq<uint16>)
    requires WellFormed(m) && f < |m.faces|
    ensures |r| == 3
  {
    var idx := m.faces[f].indices;
    [Narrow(idx[0]), Narrow(idx[1]), Narrow(idx[2])]
  }

  /** Lines 75-81: what the face loop appends for the first `n` faces. */
  function IndexData(m: Mesh, n: nat): seq<uint16>
    requires WellFormed(m) && n <= |m.faces|
  {
    if n == 0 then [] else IndexData(m, n - 1) + FaceRecord(m, n - 1)
  }

  /** Eight floats per vertex. */
  lemma {:induction false} VertexDataLength(m: Mesh, n: nat)
    requires WellFormed(m) && n <= |m.vertices|
    ensures |VertexData(m, n)| == 8 * n
  {
    if n > 0 {
      VertexDataLength(m, n - 1);
    }
  }

  /** Slot `k` of vertex `v`'s record sits at `8 * v + k`. */
  lemma {:induction false} VertexDataAt(m: Mesh, n: nat, v: nat, k: nat)
    requires WellFormed(m) && n <= |m.vertices| && v < n && k < 8
    ensures |VertexData(m, n)| == 8 * n
    ensures VertexData(m, n)[8 * v + k] == VertexRecord(m, v)[k]
  {
    VertexDataLength(m, n);
    VertexDataLength(m, n - 1);
    if v < n - 1 {
      VertexDataAt(m, n - 1, v, k);
    }
  }

  /** The layout: position, normal, then the first two texture
      coordinates, or two zeros when the mesh has no texture-coordinate
      set. */
  lemma VertexLayout(m: Mesh, v: nat)
    requires WellFormed(m) && v < |m.vertices|
    ensures var d, b := VertexData(m, |m.vertices|), 8 * v;
            |d| == 8 * |m.vertices| &&
            d[b] == m.vertices[v].x && d[b + 1] == m.vertices[v].y && d[b + 2] == m.vertices[v].z &&
            d[b + 3] == m.normals[v].x && d[b + 4] == m.normals[v].y && d[b + 5] == m.normals[v].z &&
            (m.texCoords.Some? ==> d[b + 6] == m.texCoords.value[v].x && d[b + 7] == m.texCoords.value[v].y) &&
            (m.texCoords.None? ==> d[b + 6] == 0.0 && d[b + 7] == 0.0)
  {
    var n := |m.vertices|;
    VertexDataAt(m, n, v, 0);
    VertexDataAt(m, n, v, 1);
    VertexDataAt(m, n, v, 2);
    VertexDataAt(m, n, v, 3);
    VertexDataAt(m, n, v, 4);
    VertexDataAt(m, n, v, 5);
    VertexDataAt(m, n, v, 6);
    VertexDataAt(m, n, v, 7);
  }

  /** Three indices per face. */
  lemma {:induction false} IndexDataLength(m: Mesh, n: nat)
    requires WellFormed(m) && n <= |m.faces|
    ensures |IndexData(m, n)| == 3 * n
  {
    if n > 0 {
      IndexDataLength(m, n - 1);
    }
  }

  /** Index `k` of face `f` is stored at `3 * f + k`, narrowed to 16 bits. */
  lemma {:induction false} IndexDataAt(m: Mesh, n: nat, f: nat, k: nat)
    requires WellFormed(m) && n <= |m.faces| && f < n && k < 3
    ensures |IndexData(m, n)| == 3 * n
    ensures IndexData(m, n)[3 * f + k] == m.faces[f].indices[k] % 0x1_0000
  {
    IndexDataLength(m, n);
    IndexDataLength(m, n - 1);
    if f < n - 1 {
      IndexDataAt(m, n - 1, f, k);
    }
  }

  /** Narrowing keeps an index exactly when it is below 2^16. */
  lemma NarrowKeeps(i: uint32)
    ensures Narrow(i) == i <==> i < 0x1_0000
  {
  }

  /** A face index of 65536 or more is stored as a different vertex. */
  lemma NarrowWraps()
    ensures Narrow(0x1_0000) == 0 && Narrow(0x1_0005) == 5
  {
  }

  /** The mesh manager's buffers (model.hpp:33-34). */
  class ModelManager {
    var vertexBuff: seq<real>
    var indexBuff: seq<uint16>

    /** model.cpp:3-9: both buffers start empty. */
    constructor ()
      ensures vertexBuff == [] && indexBuff == []
    {
      vertexBuff := [];
      indexBuff := [];
    }

    /** model.cpp:40-84: the mesh is appended to the buffers, whatever they
        held before, and the result is always `true`. */
    method AssimpGetMeshData(mesh: Mesh) returns (ok: bool)
      requires WellFormed(mesh)
      modifies this
      ensures ok
      ensures vertexBuff == old(vertexBuff) + VertexData(mesh, |mesh.vertices|)
      ensures indexBuff == old(indexBuff) + IndexData(mesh, |mesh.faces|)
    {
      for v := 0 to |mesh.vertices|
        invariant vertexBuff == old(vertexBuff) + VertexData(mesh, v)
        invariant indexBuff == old(indexBuff)
      {
        PushVertex(mesh, v);
        assert old(vertexBuff) + VertexData(mesh, v + 1) == old(vertexBuff) + VertexData(mesh, v) + VertexRecord(mesh, v);
      }
      for f := 0 to |mesh.faces|
        invariant vertexBuff == old(vertexBuff) + VertexData(mesh, |mesh.vertices|)
        invariant indexBuff == old(indexBuff) + IndexData(mesh, f)
      {
        PushFace(mesh, f);
        assert old(indexBuff) + IndexData(mesh, f + 1) == old(indexBuff) + IndexData(mesh, f) + FaceRecord(mesh, f);
      }
      ok := true;
    }

    /** Lines 47-67: the eight push_backs for vertex `v`. */
    method PushVertex(mesh: Mesh, v: nat)
      requires WellFormed(mesh) && v < |mesh.vertices|
      modifies this
      ensures vertexBuff == old(vertexBuff) + VertexRecord(mesh, v)
      ensures indexBuff == old(indexBuff)
    {
      vertexBuff := vertexBuff + [mesh.vertices[v].x];
      vertexBuff := vertexBuff + [mesh.vertices[v].y];
      vertexBuff := vertexBuff + [mesh.vertices[v].z];
      vertexBuff := vertexBuff + [mesh.normals[v].x];
      vertexBuff := vertexBuff + [mesh.normals[v].y];
      vertexBuff := vertexBuff + [mesh.normals[v].z];
      if mesh.texCoords.Some? {
        vertexBuff := vertexBuff + [mesh.texCoords.value[v].x];
        vertexBuff := vertexBuff + [mesh.texCoords.value[v].y];
      } else {
        vertexBuff := vertexBuff + [0.0];
        vertexBuff := vertexBuff + [0.0];
      }
    }

    /** Lines 77-80: the three push_backs for face `f`. */
    method PushFace(mesh: Mesh, f: nat)
      requires WellFormed(mesh) && f < |mesh.faces|
      modifies this
      ensures indexBuff == old(indexBuff) + FaceRecord(mesh, f)
      ensures vertexBuff == old(vertexBuff)
    {
      var face := mesh.faces[f];
      indexBuff := indexBuff + [Narrow(face.indices[0])];
      indexBuff := indexBuff + [Narrow(face.indices[1])];
      indexBuff := indexBuff + [Narrow(face.indices[2])];
    }
  }
}
