/** CFDTriangleMesh: a JavaFX TriangleMesh that is only ever grown, by addPoint (three
    coordinates per point) and addTriangle (vertex, texture index 0, three times). */
module CFDMeshes {
  import opened MeshTypes

  /** MyTriangle: a triangle by its three vertex indices. */
  datatype MyTriangle = MyTriangle(vertex1: int, vertex2: int, vertex3: int)

  /** Vertex j (0, 1 or 2) of a triangle. */
  function Corner(t: MyTriangle, j: int): int
    requires 0 <= j < 3
  {
    if j == 0 then t.vertex1 else if j == 1 then t.vertex2 else t.vertex3
  }

  /** Coordinate j (0, 1 or 2) of a point. */
  function Coordinate(p: Node, j: int): real
    requires 0 <= j < 3
  {
    if j == 0 then p.x else if j == 1 then p.y else p.z
  }

  /** The points buffer after addPoint of each point in turn, from empty. */
  function PointsOf(ps: seq<Node>): (r: seq<real>)
    ensures |r| == 3 * |ps|
  {
    if ps == [] then [] else
      var last := ps[|ps| - 1];
      PointsOf(ps[..|ps| - 1]) + [last.x, last.y, last.z]
  }

  /** The faces buffer after addTriangle of each triangle in turn, from empty. */
  function FacesOf(tris: seq<MyTriangle>): (r: seq<int>)
    ensures |r| == 6 * |tris|
  {
    if tris == [] then [] else
      var last := tris[|tris| - 1];
      FacesOf(tris[..|tris| - 1]) + [last.vertex1, 0, last.vertex2, 0, last.vertex3, 0]
  }

  /** The vertex ids of the triangles in insertion order, three per triangle. */
  function VertexIds(tris: seq<MyTriangle>): (r: seq<int>)
    ensures |r| == 3 * |tris|
  {
    if tris == [] then [] else
      var last := tris[|tris| - 1];
      VertexIds(tris[..|tris| - 1]) + [last.vertex1, last.vertex2, last.vertex3]
  }

  /** Slot 3i + j of the points buffer is coordinate j of point i. */
  lemma {:induction false} PointsOfAt(ps: seq<Node>, i: int, j: int)
    requires 0 <= i < |ps| && 0 <= j < 3
    ensures PointsOf(ps)[3 * i + j] == Coordinate(ps[i], j)
  {
    var init := ps[..|ps| - 1];
    if i < |ps| - 1 {
      PointsOfAt(init, i, j);
      assert init[i] == ps[i];
    }
  }

  /** Slot 6i + 2j of the faces buffer is vertex j of triangle i, and slot 6i + 2j + 1, its
      texture index, is 0. */
  lemma {:induction false} FacesOfAt(tris: seq<MyTriangle>, i: int, j: int)
    requires 0 <= i < |tris| && 0 <= j < 3
    ensures FacesOf(tris)[6 * i + 2 * j] == Corner(tris[i], j)
    ensures FacesOf(tris)[6 * i + 2 * j + 1] == 0
  {
    var init := tris[..|tris| - 1];
    if i < |tris| - 1 {
      FacesOfAt(init, i, j);
      assert init[i] == tris[i];
    }
  }

  /** Every odd slot of a faces buffer built by addTriangle is a texture index 0. */
  lemma TextureSlotsAreZero(tris: seq<MyTriangle>, k: int)
    requires 0 <= k < |FacesOf(tris)| && k % 2 == 1
    ensures FacesOf(tris)[k] == 0
  {
    var i, j := OddSlot(k);
    FacesOfAt(tris, i, j);
  }

  /** An odd slot is the texture slot of corner j of some triangle i. */
  lemma OddSlot(k: nat) returns (i: nat, j: nat)
    requires k % 2 == 1
    ensures j < 3 && k == 6 * i + 2 * j + 1
  {
    var m := k / 2;
    assert k == 2 * m + 1;
    i, j := m / 3, m % 3;
    assert m == 3 * i + j;
  }

  /** Slot 3i + j of the vertex ids is vertex j of triangle i. */
  lemma {:induction false} VertexIdsAt(tris: seq<MyTriangle>, i: int, j: int)
    requires 0 <= i < |tris| && 0 <= j < 3
    ensures VertexIds(tris)[3 * i + j] == Corner(tris[i], j)
  {
    var init := tris[..|tris| - 1];
    if i < |tris| - 1 {
      VertexIdsAt(init, i, j);
      assert init[i] == tris[i];
    }
  }

  /** The even slots of a faces buffer built by addTriangle are the vertex ids, in order. */
  lemma EvenSlotsAreVertexIds(tris: seq<MyTriangle>, k: int)
    requires 0 <= k < 3 * |tris|
    ensures FacesOf(tris)[2 * k] == VertexIds(tris)[k]
  {
    var i, j := k / 3, k % 3;
    assert k == 3 * i + j && 2 * k == 6 * i + 2 * j;
    FacesOfAt(tris, i, j);
    VertexIdsAt(tris, i, j);
  }

  /** What a mesh holds: the points, triangles and texture coordinates added so far. */
  datatype MeshState = MeshState(vertices: seq<Node>, triangles: seq<MyTriangle>, texCoords: seq<real>)
  {
    function WithPoint(p: Node): MeshState {
      this.(vertices := vertices + [p])
    }

    function WithTriangle(v1: int, v2: int, v3: int): MeshState {
      this.(triangles := triangles + [MyTriangle(v1, v2, v3)])
    }

    function WithTexCoords(u: real, v: real): MeshState {
      this.(texCoords := texCoords + [u, v])
    }
  }

  const Empty: MeshState := MeshState([], [], [])

  class CFDTriangleMesh {
    /** getPoints(): x, y, z per point */
    var points: seq<real>
    /** getFaces(): vertex index and texture index, three times per triangle */
    var faces: seq<int>
    /** getTexCoords() */
    var texCoords: seq<real>
    /** the points and triangles the buffers were built from */
    ghost var vertices: seq<Node>
    ghost var triangles: seq<MyTriangle>

    ghost predicate Valid()
      reads this
    {
      points == PointsOf(vertices) && faces == FacesOf(triangles)
    }

    ghost function State(): MeshState
      reads this
    {
      MeshState(vertices, triangles, texCoords)
    }

    constructor ()
      ensures Valid() && State() == Empty
    {
      points, faces, texCoords := [], [], [];
      vertices, triangles := [], [];
    }

    /** addPoint: the three coordinates are appended; earlier points and the faces are kept. */
    method AddPoint(p: Node)
      requires Valid()
      modifies this
      ensures Valid() && State() == old(State()).WithPoint(p)
      ensures points == old(points) + [p.x, p.y, p.z] && faces == old(faces)
    {
      points := points + [p.x, p.y, p.z];
      vertices := vertices + [p];
      assert vertices[..|vertices| - 1] == old(vertices);
    }

    /** addTriangle: v1, 0, v2, 0, v3, 0 is appended; earlier faces and the points are kept. */
    method AddTriangle(v1: int, v2: int, v3: int)
      requires Valid()
      modifies this
      ensures Valid() && State() == old(State()).WithTriangle(v1, v2, v3)
      ensures faces == old(faces) + [v1, 0, v2, 0, v3, 0] && points == old(points)
    {
      faces := faces + [v1, 0, v2, 0, v3, 0];
      triangles := triangles + [MyTriangle(v1, v2, v3)];
      assert triangles[..|triangles| - 1] == old(triangles);
    }

    /** getTexCoords().addAll(u, v) */
    method AddTexCoords(u: real, v: real)
      requires Valid()
      modifies this
      ensures Valid() && State() == old(State()).WithTexCoords(u, v)
      ensures points == old(points) && faces == old(faces)
    {
      texCoords := texCoords + [u, v];
    }
  }
}
