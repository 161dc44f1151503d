/** The 2D converter's hooks: triangles as main elements, edges as boundary elements,
    the one-shot orientation fix, edge keys, and the 2D line formats. */
module MeshConverter2D {
  import opened Outcomes
  import opened MeshTypes
  import opened JavaText
  import BoundaryCounting

  const Dimension: int := 2
  const NodesPerMainElement: nat := 3
  const NodesPerBoundaryElement: nat := 2
  /** GMSH element type of a 3-node triangle. */
  const ElementType: int := 2

  // ---------- edge keys ----------

  /** Order-independent identity of an edge: its two indices, smaller first. */
  datatype EdgeKey = EdgeKey(a: int, b: int)

  function KeyOf(edge: seq<int>): (k: EdgeKey)
    requires |edge| == 2
    ensures k.a <= k.b
  {
    if edge[0] < edge[1] then EdgeKey(edge[0], edge[1]) else EdgeKey(edge[1], edge[0])
  }

  /** The key holds the edge's two indices, smaller first. */
  lemma KeyOfIsSortedEdge(edge: seq<int>)
    requires |edge| == 2
    ensures var k := KeyOf(edge); k.a <= k.b && multiset{k.a, k.b} == multiset(edge)
  {
    assert edge == [edge[0], edge[1]];
  }

  /** An edge and its reverse have the same key. */
  lemma KeyOfReversed(a: int, b: int)
    ensures KeyOf([a, b]) == KeyOf([b, a])
  {
  }

  /** Two edges have the same key exactly when they join the same two indices. */
  lemma KeyOfIdentifiesEdge(e: seq<int>, f: seq<int>)
    requires |e| == 2 && |f| == 2
    ensures KeyOf(e) == KeyOf(f) <==> multiset(e) == multiset(f)
  {
    KeyOfIsSortedEdge(e);
    KeyOfIsSortedEdge(f);
    assert e == [e[0], e[1]] && f == [f[0], f[1]];
    var ke, kf := KeyOf(e), KeyOf(f);
    if multiset(e) == multiset(f) {
      assert multiset{ke.a, ke.b} == multiset{kf.a, kf.b};
      SortedPairsWithEqualMultisets(ke.a, ke.b, kf.a, kf.b);
    }
  }

  lemma SortedPairsWithEqualMultisets(a: int, b: int, c: int, d: int)
    requires a <= b && c <= d
    requires multiset{a, b} == multiset{c, d}
    ensures a == c && b == d
  {
    assert a in multiset{c, d} && b in multiset{c, d};
    assert c in multiset{a, b} && d in multiset{a, b};
  }

  // ---------- facets ----------

  /** The three edges of a triangle, in the triangle's winding. */
  function Edges(tri: seq<int>): (r: seq<seq<int>>)
    requires |tri| == 3
  {
    [[tri[0], tri[1]], [tri[1], tri[2]], [tri[2], tri[0]]]
  }

  /** All edges of all triangles, three per triangle. */
  function AllEdges(tris: seq<seq<int>>): (r: seq<seq<int>>)
    requires forall i :: 0 <= i < |tris| ==> |tris[i]| == 3
    ensures |r| == 3 * |tris|
    ensures forall i :: 0 <= i < |r| ==> |r[i]| == 2
  {
    BoundaryCounting.AllFacetsLength(tris, Edges, 3);
    var r := BoundaryCounting.AllFacets(tris, Edges);
    assert forall i :: 0 <= i < |r| ==> |r[i]| == 2 by {
      forall i | 0 <= i < |r| ensures |r[i]| == 2 {
        BoundaryCounting.AllFacetsAt(tris, Edges, 3, i / 3, i % 3);
      }
    }
    r
  }

  function EdgeKeys(tri: seq<int>): seq<EdgeKey>
    requires |tri| == 3
  {
    [KeyOf(Edges(tri)[0]), KeyOf(Edges(tri)[1]), KeyOf(Edges(tri)[2])]
  }

  // ---------- orientation ----------

  /** A triangle with slots 1 and 2 exchanged (the in-place swap of the flip). */
  function Flipped(t: seq<int>): (r: seq<int>)
    requires |t| == 3
  {
    [t[0], t[2], t[1]]
  }

  /** Flipping a triangle keeps its undirected edges, so it cannot change which edges are
      boundary edges; only their winding is reversed. */
  lemma FlipKeepsEdgeKeys(t: seq<int>)
    requires |t| == 3
    ensures EdgeKeys(Flipped(t)) == [EdgeKeys(t)[2], EdgeKeys(t)[1], EdgeKeys(t)[0]]
  {
    var k0, k1, k2 := KeyOf([t[0], t[1]]), KeyOf([t[1], t[2]]), KeyOf([t[2], t[0]]);
    assert EdgeKeys(t) == [k0, k1, k2];
    KeyOfReversed(t[0], t[2]);
    KeyOfReversed(t[2], t[1]);
    KeyOfReversed(t[1], t[0]);
  }

  lemma FlipIsInvolution(t: seq<int>)
    requires |t| == 3
    ensures Flipped(Flipped(t)) == t
  {
  }

  /** The z component of (v1 - v0) x (v2 - v0): positive for a counter-clockwise triangle. */
  function SignedArea(v0: Node, v1: Node, v2: Node): real {
    (v1.x - v0.x) * (v2.y - v0.y) - (v1.y - v0.y) * (v2.x - v0.x)
  }

  lemma SwapNegatesArea(v0: Node, v1: Node, v2: Node)
    ensures SignedArea(v0, v2, v1) == -SignedArea(v0, v1, v2)
  {
  }

  /** The node a 1-based index names, or the index itself as the error when it is outside
      the node array (nodes[idx - 1] in the source). */
  function NodeAt(nodes: seq<Node>, idx: int): (r: Result<Node>)
    ensures r.Ok? <==> 1 <= idx <= |nodes|
    ensures r.Ok? ==> r.value == nodes[idx - 1]
  {
    if 1 <= idx <= |nodes| then Ok(nodes[idx - 1]) else Err(IndexOutOfRange(idx))
  }

  /** The signed area of a triangle, looking its corners up in order; fails on the first
      corner outside the node array. */
  function TriangleArea(tri: seq<int>, nodes: seq<Node>): (r: Result<real>)
    requires |tri| == 3
    ensures r.Ok? <==> forall k :: 0 <= k < 3 ==> 1 <= tri[k] <= |nodes|
  {
    match NodeAt(nodes, tri[0])
    case Err(e) => Err(e)
    case Ok(v0) =>
      match NodeAt(nodes, tri[1])
      case Err(e) => Err(e)
      case Ok(v1) =>
        match NodeAt(nodes, tri[2])
        case Err(e) => Err(e)
        case Ok(v2) => Ok(SignedArea(v0, v1, v2))
  }

  /** Every triangle flipped. */
  function FlipAll(tris: seq<seq<int>>): (r: seq<seq<int>>)
    requires forall i :: 0 <= i < |tris| ==> |tris[i]| == 3
    ensures |r| == |tris|
    ensures forall i :: 0 <= i < |r| ==> |r[i]| == 3
  {
    seq(|tris|, i requires 0 <= i < |tris| => Flipped(tris[i]))
  }

  /** The triangles after the orientation check: unchanged when there is none or the first one
      is not counter-clockwise, all flipped when it is. */
  function FixedOrientation(tris: seq<seq<int>>, nodes: seq<Node>): Result<seq<seq<int>>>
    requires forall i :: 0 <= i < |tris| ==> |tris[i]| == 3
  {
    if tris == [] then Ok(tris)
    else
      match TriangleArea(tris[0], nodes)
      case Err(e) => Err(e)
      case Ok(normal) => if normal > 0.0 then Ok(FlipAll(tris)) else Ok(tris)
  }

  /** After the fix the first triangle is clockwise or degenerate; the other triangles are
      flipped with it, so a consistently wound mesh ends up consistently clockwise. */
  lemma FixedFirstTriangleIsClockwise(tris: seq<seq<int>>, nodes: seq<Node>)
    requires forall i :: 0 <= i < |tris| ==> |tris[i]| == 3
    requires tris != []
    requires FixedOrientation(tris, nodes).Ok?
    ensures var fixed := FixedOrientation(tris, nodes).value;
            |fixed| == |tris| && TriangleArea(fixed[0], nodes).Ok? && TriangleArea(fixed[0], nodes).value <= 0.0
  {
    var t := tris[0];
    var v0, v1, v2 := nodes[t[0] - 1], nodes[t[1] - 1], nodes[t[2] - 1];
    SwapNegatesArea(v0, v1, v2);
  }

  /** The orientation check fails only when the first triangle names a missing node. */
  lemma FixedOrientationFails(tris: seq<seq<int>>, nodes: seq<Node>)
    requires forall i :: 0 <= i < |tris| ==> |tris[i]| == 3
    ensures FixedOrientation(tris, nodes).Err? <==>
            tris != [] && exists k :: 0 <= k < 3 && !(1 <= tris[0][k] <= |nodes|)
  {
  }

  /** checkAndFixNormals: decides on triangle 0 and swaps slots 1 and 2 of every triangle in
      place when it is counter-clockwise. */
  method CheckAndFixNormals(mainElements: array<seq<int>>, nodes: array<Node>) returns (o: Outcome)
    requires forall i :: 0 <= i < mainElements.Length ==> |mainElements[i]| == 3
    modifies mainElements
    ensures forall i :: 0 <= i < mainElements.Length ==> |mainElements[i]| == 3
    ensures match FixedOrientation(old(mainElements[..]), nodes[..])
            case Ok(fixed) => o.Pass? && mainElements[..] == fixed
            case Err(e) => o == Fail(e) && mainElements[..] == old(mainElements[..])
  {
    if mainElements.Length == 0 {
      return Pass;
    }
    var tri := mainElements[0];
    var area := TriangleArea(tri, nodes[..]);
    if area.Err? {
      return Fail(area.error);
    }
    if area.value > 0.0 {
      var i := 0;
      while i < mainElements.Length
        invariant 0 <= i <= mainElements.Length
        invariant forall j :: 0 <= j < i ==> mainElements[j] == Flipped(old(mainElements[j]))
        invariant forall j :: i <= j < mainElements.Length ==> mainElements[j] == old(mainElements[j])
      {
        var t := mainElements[i];
        mainElements[i] := [t[0], t[2], t[1]];
        i := i + 1;
      }
    }
    return Pass;
  }

  /** detectBoundaryElements for triangles: the edges whose key occurs once, in their
      original winding. */
  method DetectBoundaryElements(mainElements: array<seq<int>>) returns (boundary: array<seq<int>>)
    requires forall i :: 0 <= i < mainElements.Length ==> |mainElements[i]| == 3
    ensures fresh(boundary)
    ensures forall i :: 0 <= i < boundary.Length ==> |boundary[i]| == 2
    ensures BoundaryCounting.IsBoundaryOf(boundary[..], AllEdges(mainElements[..]), KeyOf)
  {
    var all := BoundaryCounting.ExtractFacets(mainElements, Edges, 3);
    assert all[..] == AllEdges(mainElements[..]);
    var counts := BoundaryCounting.CountFacets(all, KeyOf);
    boundary := BoundaryCounting.CollectBoundary(counts, all[..], KeyOf);
    assert forall i :: 0 <= i < boundary.Length ==> boundary[..][i] in all[..];
  }

  // ---------- output line formats (the text before the %n line separator) ----------

  function FormatNode(formatCoord: real -> string, n: Node): string {
    formatCoord(n.x) + " " + formatCoord(n.y) + " "
  }

  /** "%d %d %d " */
  function FormatMainElement(e: seq<int>): string
    requires |e| >= 3
  {
    IntToString(e[0]) + " " + IntToString(e[1]) + " " + IntToString(e[2]) + " "
  }

  /** "%d %d 0 " */
  function FormatBoundaryElement(e: seq<int>): string
    requires |e| >= 2
  {
    IntToString(e[0]) + " " + IntToString(e[1]) + " " + "0" + " "
  }

  /** An element line is its values' words joined by single spaces, with a trailing space. */
  lemma FormatsAreWords(e: seq<int>)
    requires |e| >= 3
    ensures FormatMainElement(e) == Unwords([IntToString(e[0]), IntToString(e[1]), IntToString(e[2])]) + " "
    ensures FormatBoundaryElement(e) == Unwords([IntToString(e[0]), IntToString(e[1]), "0"]) + " "
  {
    UnwordsThree(IntToString(e[0]), IntToString(e[1]), IntToString(e[2]));
    UnwordsThree(IntToString(e[0]), IntToString(e[1]), "0");
  }
}
