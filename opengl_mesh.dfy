/** MeshData: the vertex, normal and index arrays handed to OpenGL. */
module OpenGLMeshData {

  datatype MeshData = MeshData(vertices: seq<real>, normals: seq<real>, indices: seq<int>)
  {
    /** getVertexCount: whole (x, y, z) triples; a trailing partial triple is not counted. */
    function VertexCount(): (n: nat)
      ensures 3 * n <= |vertices| < 3 * n + 3
    {
      |vertices| / 3
    }

    /** getTriangleCount: whole index triples; a trailing partial triple is not counted. */
    function TriangleCount(): (n: nat)
      ensures 3 * n <= |indices| < 3 * n + 3
    {
      |indices| / 3
    }
  }
}

/** MeshDataAdapter: a CFDTriangleMesh as MeshData. The points are copied, the faces buffer
    (vertex, texture index, three times per triangle) loses its texture slots, and the
    normals are computed from both. */
module MeshDataAdapter {
  import opened Outcomes
  import opened CFDMeshes
  import opened OpenGLMeshData
  import opened MeshTypes

  /** The texture-free slots of a faces buffer: every even slot, in order. */
  function EvenSlots(faces: seq<int>): (r: seq<int>)
    ensures |r| == |faces| / 2
  {
    seq(|faces| / 2, j requires 0 <= j < |faces| / 2 => faces[2 * j])
  }

  /** The loop of fromCFDMesh: indices = new int[faces.size() / 2], then faces[i] for every
      even i into indices[j++]. A faces buffer of odd length makes the last write fall one past
      the end of indices. */
  method VertexSlots(faces: seq<int>) returns (r: Result<seq<int>>)
    ensures r.Ok? <==> |faces| % 2 == 0
    ensures r.Err? ==> r.error == ArrayIndexOutOfBounds(|faces| / 2)
    ensures r.Ok? ==> r.value == EvenSlots(faces)
  {
    var indices := new int[|faces| / 2];
    var i, j := 0, 0;
    while i < |faces|
      invariant i == 2 * j && j <= indices.Length
      invariant forall k :: 0 <= k < j ==> indices[k] == faces[2 * k]
    {
      if j >= indices.Length {
        return Err(ArrayIndexOutOfBounds(j));
      }
      indices[j] := faces[i];
      j := j + 1;
      i := i + 2;
    }
    return Ok(indices[..]);
  }

  /** The first of vertices[3v], vertices[3v + 1], vertices[3v + 2] that lies outside an array
      of the given length, if any; none exactly when v is a whole vertex. */
  function VertexReadFault(v: int, length: nat): (fault: Option<int>)
    ensures fault.None? <==> 0 <= v < length / 3
    ensures fault.Some? ==> !(0 <= fault.value < length)
  {
    if 3 * v < 0 || 3 * v >= length then Some(3 * v)
    else if 3 * v + 1 >= length then Some(3 * v + 1)
    else if 3 * v + 2 >= length then Some(3 * v + 2)
    else None
  }

  /** Every read and write of computeNormals stays inside its arrays: the indices come in
      whole triples and each names one of the whole vertices. */
  predicate NormalsDefined(vertices: seq<real>, indices: seq<int>) {
    && |indices| % 3 == 0
    && forall k :: 0 <= k < |indices| ==> 0 <= indices[k] < |vertices| / 3
  }

  /** computeNormals: walks the index triples, reading indices[i + 1], indices[i + 2] and the
      three vertices of each, which throws ArrayIndexOutOfBoundsException at the first access
      outside an array; otherwise one normal (x, y, z) per whole vertex, whose accumulated and
      normalised floating-point values are given by normalAt, slot by slot. */
  method ComputeNormals(vertices: seq<real>, indices: seq<int>, normalAt: (seq<real>, seq<int>, int) -> real)
    returns (r: Result<seq<real>>)
    ensures r.Ok? <==> NormalsDefined(vertices, indices)
    ensures r.Err? ==> r.error.ArrayIndexOutOfBounds?
    ensures r.Ok? ==> |r.value| == 3 * (|vertices| / 3)
    ensures r.Ok? ==> forall k :: 0 <= k < |r.value| ==> r.value[k] == normalAt(vertices, indices, k)
  {
    var numVertices := |vertices| / 3;
    var i := 0;
    while i < |indices|
      invariant 0 <= i <= |indices| && i % 3 == 0
      invariant forall k :: 0 <= k < i ==> 0 <= indices[k] < numVertices
    {
      if i + 1 >= |indices| {
        return Err(ArrayIndexOutOfBounds(i + 1));
      }
      if i + 2 >= |indices| {
        return Err(ArrayIndexOutOfBounds(i + 2));
      }
      var i0, i1, i2 := indices[i], indices[i + 1], indices[i + 2];
      var fault := VertexReadFault(i0, |vertices|);
      if fault.None? {
        fault := VertexReadFault(i1, |vertices|);
      }
      if fault.None? {
        fault := VertexReadFault(i2, |vertices|);
      }
      if fault.Some? {
        return Err(ArrayIndexOutOfBounds(fault.value));
      }
      i := i + 3;
    }
    return Ok(seq(3 * numVertices, k => normalAt(vertices, indices, k)));
  }

  /** Every vertex id of every triangle names one of the first n points. */
  predicate VertexIdsWithin(tris: seq<MyTriangle>, n: int) {
    forall t, j :: 0 <= t < |tris| && 0 <= j < 3 ==> 0 <= Corner(tris[t], j) < n
  }

  /** For a mesh built by addPoint and addTriangle, the normals can be computed exactly when
      every triangle names added points. */
  lemma BuiltMeshNormalsDefined(ps: seq<Node>, tris: seq<MyTriangle>)
    ensures NormalsDefined(PointsOf(ps), VertexIds(tris)) <==> VertexIdsWithin(tris, |ps|)
  {
    ThreeTimes(|ps|);
    ThreeTimes(|tris|);
    if VertexIdsWithin(tris, |ps|) {
      VertexIdsInRange(tris, |ps|);
    }
    if NormalsDefined(PointsOf(ps), VertexIds(tris)) {
      forall t, j | 0 <= t < |tris| && 0 <= j < 3 ensures 0 <= Corner(tris[t], j) < |ps| {
        VertexIdsAt(tris, t, j);
      }
    }
  }

  lemma VertexIdsInRange(tris: seq<MyTriangle>, n: int)
    requires VertexIdsWithin(tris, n)
    ensures forall k :: 0 <= k < |VertexIds(tris)| ==> 0 <= VertexIds(tris)[k] < n
  {
    forall k | 0 <= k < |VertexIds(tris)| ensures 0 <= VertexIds(tris)[k] < n {
      var t, j := TripleSlot(k);
      VertexIdsAt(tris, t, j);
    }
  }

  lemma ThreeTimes(n: nat)
    ensures (3 * n) % 3 == 0 && (3 * n) / 3 == n
  {
  }

  /** Slot k of a list of triples is corner j of triple t. */
  lemma TripleSlot(k: nat) returns (t: nat, j: nat)
    ensures j < 3 && k == 3 * t + j
  {
    t, j := k / 3, k % 3;
  }

  /** fromCFDMesh: the vertices are the mesh points and the indices are the vertex slots of
      the faces, from which the normals are computed. For a mesh built by addTriangle the
      indices are the added vertex ids in order, one vertex per point and one triangle per
      addTriangle, and the conversion fails exactly when a triangle names a missing point. */
  method FromCFDMesh(mesh: CFDTriangleMesh, normalAt: (seq<real>, seq<int>, int) -> real) returns (r: Result<MeshData>)
    ensures r.Ok? <==> |mesh.faces| % 2 == 0 && NormalsDefined(mesh.points, EvenSlots(mesh.faces))
    ensures |mesh.faces| % 2 != 0 ==> r == Err(ArrayIndexOutOfBounds(|mesh.faces| / 2))
    ensures r.Err? ==> r.error.ArrayIndexOutOfBounds?
    ensures r.Ok? ==> r.value.vertices == mesh.points && r.value.indices == EvenSlots(mesh.faces)
    ensures r.Ok? ==> |r.value.normals| == 3 * (|mesh.points| / 3)
    ensures r.Ok? ==> forall k :: 0 <= k < |r.value.normals| ==> r.value.normals[k] == normalAt(mesh.points, r.value.indices, k)
    ensures mesh.Valid() ==> (r.Ok? <==> VertexIdsWithin(mesh.triangles, |mesh.vertices|))
    ensures mesh.Valid() && r.Ok? ==> r.value.indices == VertexIds(mesh.triangles)
    ensures mesh.Valid() && r.Ok? ==> r.value.VertexCount() == |mesh.vertices| && r.value.TriangleCount() == |mesh.triangles|
  {
    var vertices := mesh.points;
    if mesh.Valid() {
      FacesLength(mesh.triangles);
      EvenSlotsOfFaces(mesh.triangles);
      BuiltMeshNormalsDefined(mesh.vertices, mesh.triangles);
    }
    var slots := VertexSlots(mesh.faces);
    if slots.Err? {
      return Err(slots.error);
    }
    var indices := slots.value;
    var normals := ComputeNormals(vertices, indices, normalAt);
    if normals.Err? {
      return Err(normals.error);
    }
    return Ok(MeshData(vertices, normals.value, indices));
  }

  /** A faces buffer built by addTriangle has even length: two slots per vertex id. */
  lemma FacesLength(tris: seq<MyTriangle>)
    ensures |FacesOf(tris)| == 2 * (3 * |tris|)
    ensures |FacesOf(tris)| % 2 == 0 && |FacesOf(tris)| / 2 == 3 * |tris|
  {
  }

  /** The vertex slots of a faces buffer built by addTriangle are its vertex ids. */
  lemma EvenSlotsOfFaces(tris: seq<MyTriangle>)
    ensures EvenSlots(FacesOf(tris)) == VertexIds(tris)
  {
    var slots := EvenSlots(FacesOf(tris));
    FacesLength(tris);
    forall j | 0 <= j < |slots|
      ensures slots[j] == VertexIds(tris)[j]
    {
      EvenSlotsAreVertexIds(tris, j);
    }
  }
}
