/** MeshResolution: the three meshes a .t file is loaded into (the full mesh, the surface
    mesh, and a reduced mesh that keeps only every k-th tetrahedron of a large mesh), with the
    colour and position the scene gives them. */
module MeshResolutions {
  import opened Outcomes
  import opened MeshTypes
  import opened CFDMeshes

  /** MAX_REDUCED_TETRA: above this many tetrahedra the mesh is reduced. */
  const MaxReducedTetra: int := 250000

  /** A JavaFX Color. */
  datatype Color = Color(red: real, green: real, blue: real, opacity: real)

  /** (int) Math.ceil((double) nbTetra / MAX_REDUCED_TETRA) for a mesh that is reduced. The
      quotient of two ints is exact enough in double precision that the ceiling is the
      integer ceiling. */
  function ReductionFactor(nbTetra: int): (f: int)
    requires nbTetra > MaxReducedTetra
    ensures f >= 2
    ensures (f - 1) * MaxReducedTetra < nbTetra <= f * MaxReducedTetra
  {
    (nbTetra + MaxReducedTetra - 1) / MaxReducedTetra
  }

  // ---------- the state of a MeshResolution as a value ----------

  /** full = triangleMesh, reduced = triangleMeshReduced, surface = triangleSurface;
      counter = currentNbTriangles. */
  datatype Resolution = Resolution(full: MeshState, reduced: MeshState, surface: MeshState,
                                   isReduced: bool, factor: int, counter: nat)

  /** What every MeshResolution satisfies: a reduced mesh has a factor of at least 2; a mesh
      that is not reduced keeps the default factor and never counts. */
  predicate Consistent(r: Resolution) {
    && (r.isReduced ==> r.factor >= 2)
    && (!r.isReduced ==> r.factor == 0 && r.counter == 0)
  }

  /** The constructor: three empty meshes, reduced exactly when nbTetra > MAX_REDUCED_TETRA. */
  function Initial(nbTetra: int): (r: Resolution)
    ensures Consistent(r)
    ensures r.full == r.reduced == r.surface == Empty && r.counter == 0
    ensures r.isReduced <==> nbTetra > MaxReducedTetra
    ensures r.isReduced ==> (r.factor - 1) * MaxReducedTetra < nbTetra <= r.factor * MaxReducedTetra
  {
    if nbTetra > MaxReducedTetra then Resolution(Empty, Empty, Empty, true, ReductionFactor(nbTetra), 0)
    else Resolution(Empty, Empty, Empty, false, 0, 0)
  }

  /** The reduced mesh after an update that applies to it only while the mesh is reduced. */
  function IfReduced(r: Resolution, updated: MeshState): MeshState {
    if r.isReduced then updated else r.reduced
  }

  function AddPointTo(r: Resolution, p: Node): Resolution {
    r.(full := r.full.WithPoint(p), surface := r.surface.WithPoint(p),
       reduced := IfReduced(r, r.reduced.WithPoint(p)))
  }

  /** add2DTriangle: a line whose third vertex is -1 (a boundary edge) becomes the degenerate
      triangle (v1, v2, v1) of the surface, full and reduced meshes; any other line is a
      triangle of the full mesh only. */
  function Add2DTriangleTo(r: Resolution, v1: int, v2: int, v3: int): Resolution {
    if v3 == -1 then
      r.(surface := r.surface.WithTriangle(v1, v2, v1), full := r.full.WithTriangle(v1, v2, v1),
         reduced := IfReduced(r, r.reduced.WithTriangle(v1, v2, v1)))
    else
      r.(full := r.full.WithTriangle(v1, v2, v3))
  }

  function AddTriangleSurfaceTo(r: Resolution, v1: int, v2: int, v3: int): Resolution {
    r.(full := r.full.WithTriangle(v1, v2, v3), surface := r.surface.WithTriangle(v1, v2, v3),
       reduced := IfReduced(r, r.reduced.WithTriangle(v1, v2, v3)))
  }

  /** The four faces addTetraFaces adds for a tetrahedron. */
  function WithTetraFaces(m: MeshState, v1: int, v2: int, v3: int, v4: int): MeshState {
    m.WithTriangle(v1, v2, v3).WithTriangle(v1, v2, v4).WithTriangle(v2, v3, v4).WithTriangle(v1, v3, v4)
  }

  /** addTetraFaces: the full mesh always gets the four faces; a reduced mesh numbers the
      call and keeps the faces when the number is a multiple of the factor. */
  function AddTetraFacesTo(r: Resolution, v1: int, v2: int, v3: int, v4: int): Resolution
    requires Consistent(r)
  {
    var r' := r.(full := WithTetraFaces(r.full, v1, v2, v3, v4));
    if !r.isReduced then r'
    else if r.counter % r.factor == 0 then
      r'.(reduced := WithTetraFaces(r.reduced, v1, v2, v3, v4), counter := r.counter + 1)
    else
      r'.(counter := r.counter + 1)
  }

  /** addTexCoords: the texture coordinate (1, 1) in all three meshes, reduced or not. */
  function AddTexCoordsTo(r: Resolution): Resolution {
    r.(full := r.full.WithTexCoords(1.0, 1.0), reduced := r.reduced.WithTexCoords(1.0, 1.0),
       surface := r.surface.WithTexCoords(1.0, 1.0))
  }

  /** Every operation keeps the resolution consistent and never changes whether or by how
      much it is reduced. */
  lemma OperationsKeepConsistent(r: Resolution, p: Node, v1: int, v2: int, v3: int, v4: int)
    requires Consistent(r)
    ensures Consistent(AddPointTo(r, p)) && Consistent(Add2DTriangleTo(r, v1, v2, v3))
    ensures Consistent(AddTriangleSurfaceTo(r, v1, v2, v3)) && Consistent(AddTetraFacesTo(r, v1, v2, v3, v4))
    ensures Consistent(AddTexCoordsTo(r))
    ensures AddTetraFacesTo(r, v1, v2, v3, v4).isReduced == r.isReduced
    ensures AddTetraFacesTo(r, v1, v2, v3, v4).factor == r.factor
  {
  }

  // ---------- decimation ----------

  /** How many of the calls numbered 0 .. n - 1 keep their tetrahedron: those whose number is
      a multiple of the factor. */
  function Kept(n: nat, factor: int): nat
    requires factor >= 1
  {
    if n == 0 then 0 else Kept(n - 1, factor) + (if (n - 1) % factor == 0 then 1 else 0)
  }

  /** Euclidean division by its bounds. */
  lemma DivisionByBounds(a: int, f: int, q: int)
    requires f >= 1 && q * f <= a < q * f + f
    ensures a / f == q
  {
    var d, s := a / f, a % f;
    assert a == d * f + s && 0 <= s < f;
    if d > q {
      MultiplyMonotone(q + 1, d, f);
      assert false;
    } else if d < q {
      MultiplyMonotone(d + 1, q, f);
      assert false;
    }
  }

  lemma MultiplyMonotone(x: int, y: int, f: nat)
    requires x <= y
    ensures x * f <= y * f
  {
  }

  /** One more call keeps one more tetrahedron exactly when its number m is a multiple of f. */
  lemma CeilingStep(m: nat, f: int)
    requires f >= 1
    ensures (m + f) / f == (m + f - 1) / f + (if m % f == 0 then 1 else 0)
  {
    var q, s := m / f, m % f;
    assert m == q * f + s && 0 <= s < f;
    DivisionByBounds(m + f, f, q + 1);
    if s == 0 {
      DivisionByBounds(m + f - 1, f, q);
    } else {
      DivisionByBounds(m + f - 1, f, q + 1);
    }
  }

  /** Of n calls, the reduced mesh keeps ceil(n / factor) tetrahedra. */
  lemma {:induction false} KeptIsCeiling(n: nat, factor: int)
    requires factor >= 1
    ensures Kept(n, factor) == (n + factor - 1) / factor
  {
    if n == 0 {
      DivisionByBounds(factor - 1, factor, 0);
    } else {
      KeptIsCeiling(n - 1, factor);
      CeilingStep(n - 1, factor);
    }
  }

  /** As long as there are no more tetrahedra than the header announced, the reduced mesh
      keeps at most MAX_REDUCED_TETRA of them. */
  lemma KeptWithinLimit(nbTetra: int, n: nat)
    requires nbTetra > MaxReducedTetra && n <= nbTetra
    ensures Kept(n, ReductionFactor(nbTetra)) <= MaxReducedTetra
  {
    var f := ReductionFactor(nbTetra);
    KeptIsCeiling(n, f);
    assert n + f - 1 < MaxReducedTetra * f + f;
    if (n + f - 1) / f > MaxReducedTetra {
      assert false;
    }
  }

  // ---------- the class ----------

  class MeshResolution {
    const triangleMesh: CFDTriangleMesh
    const triangleMeshReduced: CFDTriangleMesh
    const triangleSurface: CFDTriangleMesh
    var isReduced: bool
    /** a double in the source, always holding an integer */
    var reductionFactor: int
    /** currentNbTriangles: the number of addTetraFaces calls while reduced */
    var currentNbTriangles: nat
    /** None until setColor */
    var color: Option<Color>
    var position: Node

    ghost predicate Valid()
      reads this, triangleMesh, triangleMeshReduced, triangleSurface
    {
      && triangleMesh != triangleMeshReduced && triangleMesh != triangleSurface
      && triangleMeshReduced != triangleSurface
      && triangleMesh.Valid() && triangleMeshReduced.Valid() && triangleSurface.Valid()
      && Consistent(State())
    }

    ghost function State(): Resolution
      reads this, triangleMesh, triangleMeshReduced, triangleSurface
    {
      Resolution(triangleMesh.State(), triangleMeshReduced.State(), triangleSurface.State(),
                 isReduced, reductionFactor, currentNbTriangles)
    }

    constructor (nbTetra: int)
      ensures Valid() && State() == Initial(nbTetra)
      ensures fresh(triangleMesh) && fresh(triangleMeshReduced) && fresh(triangleSurface)
      ensures color == None && position == Origin
    {
      triangleMesh := new CFDTriangleMesh();
      triangleMeshReduced := new CFDTriangleMesh();
      triangleSurface := new CFDTriangleMesh();
      currentNbTriangles := 0;
      color := None;
      position := Origin;
      if nbTetra > MaxReducedTetra {
        reductionFactor := ReductionFactor(nbTetra);
        isReduced := true;
      } else {
        reductionFactor := 0;
        isReduced := false;
      }
    }

    /** getReducedMesh: the reduced mesh exactly when the mesh is reduced, else the full one. */
    function ReducedMesh(): (m: CFDTriangleMesh)
      requires Valid()
      reads this, triangleMesh, triangleMeshReduced, triangleSurface
      ensures m == triangleMeshReduced || m == triangleMesh
      ensures m == triangleMeshReduced <==> isReduced
    {
      if isReduced then triangleMeshReduced else triangleMesh
    }

    method AddPoint(p: Node)
      requires Valid()
      modifies triangleMesh, triangleMeshReduced, triangleSurface
      ensures Valid() && State() == AddPointTo(old(State()), p)
    {
      triangleMesh.AddPoint(p);
      triangleSurface.AddPoint(p);
      if isReduced {
        triangleMeshReduced.AddPoint(p);
      }
    }

    method Add2DTriangle(v1: int, v2: int, v3: int)
      requires Valid()
      modifies triangleMesh, triangleMeshReduced, triangleSurface
      ensures Valid() && State() == Add2DTriangleTo(old(State()), v1, v2, v3)
    {
      if v3 == -1 {
        triangleSurface.AddTriangle(v1, v2, v1);
        triangleMesh.AddTriangle(v1, v2, v1);
        if isReduced {
          triangleMeshReduced.AddTriangle(v1, v2, v1);
        }
      } else {
        triangleMesh.AddTriangle(v1, v2, v3);
      }
    }

    method AddTriangleSurface(v1: int, v2: int, v3: int)
      requires Valid()
      modifies triangleMesh, triangleMeshReduced, triangleSurface
      ensures Valid() && State() == AddTriangleSurfaceTo(old(State()), v1, v2, v3)
    {
      triangleMesh.AddTriangle(v1, v2, v3);
      triangleSurface.AddTriangle(v1, v2, v3);
      if isReduced {
        triangleMeshReduced.AddTriangle(v1, v2, v3);
      }
    }

    /** The four faces of one tetrahedron, added to one mesh. */
    static method AddFaces(m: CFDTriangleMesh, v1: int, v2: int, v3: int, v4: int)
      requires m.Valid()
      modifies m
      ensures m.Valid() && m.State() == WithTetraFaces(old(m.State()), v1, v2, v3, v4)
    {
      m.AddTriangle(v1, v2, v3);
      m.AddTriangle(v1, v2, v4);
      m.AddTriangle(v2, v3, v4);
      m.AddTriangle(v1, v3, v4);
    }

    method AddTetraFaces(v1: int, v2: int, v3: int, v4: int)
      requires Valid()
      modifies this, triangleMesh, triangleMeshReduced, triangleSurface
      ensures Valid() && State() == AddTetraFacesTo(old(State()), v1, v2, v3, v4)
      ensures color == old(color) && position == old(position)
    {
      AddFaces(triangleMesh, v1, v2, v3, v4);
      if isReduced {
        var currentTetra := currentNbTriangles;
        currentNbTriangles := currentNbTriangles + 1;
        if currentTetra % reductionFactor == 0 {
          AddFaces(triangleMeshReduced, v1, v2, v3, v4);
        }
      }
    }

    method AddTexCoords()
      requires Valid()
      modifies triangleMesh, triangleMeshReduced, triangleSurface
      ensures Valid() && State() == AddTexCoordsTo(old(State()))
    {
      triangleMesh.AddTexCoords(1.0, 1.0);
      triangleMeshReduced.AddTexCoords(1.0, 1.0);
      triangleSurface.AddTexCoords(1.0, 1.0);
    }
  }
}
