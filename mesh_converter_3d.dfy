/** The 3D converter's hooks: tetrahedra as main elements, triangular faces as boundary
    elements, face keys, and the 3D line formats. */
module MeshConverter3D {
  import opened MeshTypes
  import opened JavaText
  import BoundaryCounting

  const Dimension: int := 3
  const NodesPerMainElement: nat := 4
  const NodesPerBoundaryElement: nat := 3
  /** GMSH element type of a 4-node tetrahedron. */
  const ElementType: int := 4

  // ---------- face keys ----------

  /** Order-independent identity of a face: its three indices in ascending order. */
  datatype FaceKey = FaceKey(a: int, b: int, c: int)

  /** The FaceKey constructor: three compare-and-swap steps on (x, y), (y, z), (x, y). */
  function KeyOf(face: seq<int>): (k: FaceKey)
    requires |face| == 3
    ensures k.a <= k.b <= k.c
  {
    var x, y, z := face[0], face[1], face[2];
    var (x1, y1) := if x > y then (y, x) else (x, y);
    var (y2, z2) := if y1 > z then (z, y1) else (y1, z);
    var (x3, y3) := if x1 > y2 then (y2, x1) else (x1, y2);
    FaceKey(x3, y3, z2)
  }

  /** The key holds the face's three indices, sorted. */
  lemma KeyOfIsSortedFace(face: seq<int>)
    requires |face| == 3
    ensures var k := KeyOf(face); k.a <= k.b <= k.c && multiset{k.a, k.b, k.c} == multiset(face)
  {
    assert face == [face[0], face[1], face[2]];
  }

  /** Two faces have the same key exactly when they have the same three indices, whatever
      their winding. */
  lemma KeyOfIdentifiesFace(f: seq<int>, g: seq<int>)
    requires |f| == 3 && |g| == 3
    ensures KeyOf(f) == KeyOf(g) <==> multiset(f) == multiset(g)
  {
    KeyOfIsSortedFace(f);
    KeyOfIsSortedFace(g);
    var kf, kg := KeyOf(f), KeyOf(g);
    if multiset(f) == multiset(g) {
      SortedTriplesWithEqualMultisets(kf.a, kf.b, kf.c, kg.a, kg.b, kg.c);
    }
  }

  lemma SortedTriplesWithEqualMultisets(a: int, b: int, c: int, d: int, e: int, f: int)
    requires a <= b <= c && d <= e <= f
    requires multiset{a, b, c} == multiset{d, e, f}
    ensures a == d && b == e && c == f
  {
    var m := multiset{a, b, c};
    assert a in m && b in m && c in m && d in m && e in m && f in m;
    assert a == d by {
      assert d in multiset{a, b, c};
      assert a in multiset{d, e, f};
    }
    assert multiset{b, c} == m - multiset{a};
    assert multiset{e, f} == multiset{d, e, f} - multiset{d};
    assert multiset{b, c} == multiset{e, f};
    assert b in multiset{e, f} && e in multiset{b, c};
    assert c in multiset{e, f} && f in multiset{b, c};
  }

  // ---------- facets ----------

  /** The four faces of a tetrahedron, in the winding the source lists them. */
  function Faces(tet: seq<int>): (r: seq<seq<int>>)
    requires |tet| == 4
  {
    [[tet[0], tet[2], tet[1]], [tet[0], tet[1], tet[3]], [tet[0], tet[3], tet[2]], [tet[1], tet[2], tet[3]]]
  }

  /** All faces of all tetrahedra, four per tetrahedron. */
  function AllFaces(tets: seq<seq<int>>): (r: seq<seq<int>>)
    requires forall i :: 0 <= i < |tets| ==> |tets[i]| == 4
    ensures |r| == 4 * |tets|
    ensures forall i :: 0 <= i < |r| ==> |r[i]| == 3
  {
    BoundaryCounting.AllFacetsLength(tets, Faces, 4);
    var r := BoundaryCounting.AllFacets(tets, Faces);
    assert forall i :: 0 <= i < |r| ==> |r[i]| == 3 by {
      forall i | 0 <= i < |r| ensures |r[i]| == 3 {
        BoundaryCounting.AllFacetsAt(tets, Faces, 4, i / 4, i % 4);
      }
    }
    r
  }

  /** Directed edge k of a face, following its winding. */
  function FaceEdge(face: seq<int>, k: int): (int, int)
    requires |face| == 3 && 0 <= k < 3
  {
    (face[k], face[(k + 1) % 3])
  }

  /** For directed edge k of face i, the face and edge that run along it the other way. */
  const Mate: seq<seq<(int, int)>> :=
    [[(2, 2), (3, 0), (1, 0)], [(0, 2), (3, 2), (2, 0)], [(1, 2), (3, 1), (0, 0)], [(0, 1), (2, 1), (1, 1)]]

  /** The face windings are consistent: directed edge k of face i is run the other way by
      edge Mate[i][k].1 of another face Mate[i][k].0 of the same tetrahedron, so the four faces
      wind the same way around the solid and their normals all point outward or all inward. */
  lemma FacesConsistentlyOriented(tet: seq<int>)
    requires |tet| == 4
    ensures forall i, k :: 0 <= i < 4 && 0 <= k < 3 ==>
              var (j, l) := Mate[i][k];
              && 0 <= j < 4 && j != i && 0 <= l < 3
              && FaceEdge(Faces(tet)[j], l) == (FaceEdge(Faces(tet)[i], k).1, FaceEdge(Faces(tet)[i], k).0)
  {
  }

  /** detectBoundaryElements for tetrahedra: the faces whose key occurs once, in their
      original winding. */
  method DetectBoundaryElements(mainElements: array<seq<int>>) returns (boundary: array<seq<int>>)
    requires forall i :: 0 <= i < mainElements.Length ==> |mainElements[i]| == 4
    ensures fresh(boundary)
    ensures forall i :: 0 <= i < boundary.Length ==> |boundary[i]| == 3
    ensures BoundaryCounting.IsBoundaryOf(boundary[..], AllFaces(mainElements[..]), KeyOf)
  {
    var all := BoundaryCounting.ExtractFacets(mainElements, Faces, 4);
    ghost var faces := AllFaces(mainElements[..]);
    assert all[..] == faces;
    assert BoundaryCounting.KeyDefinedOn(faces, KeyOf);
    var counts := BoundaryCounting.CountFacets(all, KeyOf);
    boundary := BoundaryCounting.CollectBoundary(counts, faces, KeyOf);
    assert forall i :: 0 <= i < boundary.Length ==> boundary[..][i] in faces;
  }

  // ---------- output line formats (the text before the %n line separator) ----------

  function FormatNode(formatCoord: real -> string, n: Node): string {
    formatCoord(n.x) + " " + formatCoord(n.y) + " " + formatCoord(n.z) + " "
  }

  /** "%d %d %d %d " */
  function FormatMainElement(e: seq<int>): string
    requires |e| >= 4
  {
    IntToString(e[0]) + " " + IntToString(e[1]) + " " + IntToString(e[2]) + " " + IntToString(e[3]) + " "
  }

  /** "%d %d %d 0 " */
  function FormatBoundaryElement(e: seq<int>): string
    requires |e| >= 3
  {
    IntToString(e[0]) + " " + IntToString(e[1]) + " " + IntToString(e[2]) + " " + "0" + " "
  }

  /** An element line is its values' words joined by single spaces, with a trailing space. */
  lemma FormatsAreWords(e: seq<int>)
    requires |e| >= 4
    ensures FormatMainElement(e) == Unwords([IntToString(e[0]), IntToString(e[1]), IntToString(e[2]), IntToString(e[3])]) + " "
    ensures FormatBoundaryElement(e) == Unwords([IntToString(e[0]), IntToString(e[1]), IntToString(e[2]), "0"]) + " "
  {
    UnwordsFour(IntToString(e[0]), IntToString(e[1]), IntToString(e[2]), IntToString(e[3]));
    UnwordsFour(IntToString(e[0]), IntToString(e[1]), IntToString(e[2]), "0");
  }
}
