/** MeshFileParser: reads an MTC (.t) file, given as its lines, into a MeshResolution.
    Line 0 is the header "points dimension elements ...", then one line per point, then one
    line per element or boundary element; indices in the file are 1-based and are shifted to
    0-based as they are read. */
module MeshFileParser {
  import opened Outcomes
  import opened MeshTypes
  import opened JavaText
  import opened CFDMeshes
  import opened MeshResolutions
  import AbstractMeshConverter
  import MeshConverter2D
  import MeshConverter3D
  import UtilityClass

  // ---------- tokens ----------

  /** Integer.parseInt(token) - 1 in int arithmetic: MIN_VALUE - 1 wraps to MAX_VALUE. */
  function Decrement32(v: int): (r: int)
    requires IsInt32(v)
    ensures IsInt32(r)
    ensures r == -1 <==> v == 0
    ensures v != IntMin ==> r == v - 1
  {
    if v == IntMin then IntMax else v - 1
  }

  /** Integer.parseInt(parts[k]) */
  function IntAt(parts: seq<string>, k: nat): (r: Result<int>)
    ensures r.Ok? <==> k < |parts| && ParseInt(parts[k]).Some?
    ensures r.Ok? ==> r.value == ParseInt(parts[k]).value && IsInt32(r.value)
  {
    if k >= |parts| then Err(MissingToken(k))
    else match ParseInt(parts[k])
      case None => Err(NotAnInteger(parts[k]))
      case Some(v) => Ok(v)
  }

  /** Integer.parseInt(parts[k]) - 1: a 1-based index of the file as a 0-based index. */
  function IndexAt(parts: seq<string>, k: nat): (r: Result<int>)
    ensures r.Ok? <==> IntAt(parts, k).Ok?
    ensures r.Ok? ==> r.value == Decrement32(IntAt(parts, k).value)
    ensures r.Err? ==> r.error == IntAt(parts, k).error
  {
    match IntAt(parts, k)
    case Err(e) => Err(e)
    case Ok(v) => Ok(Decrement32(v))
  }

  // ---------- header ----------

  datatype Header = Header(numberOfPoints: int, dimension: int, nbTetra: int)

  /** The header: tokens 0, 1 and 2 of the first line split on single spaces, read in that
      order. A missing first line is the NullPointerException of readLine().split. */
  function HeaderOf(lines: seq<string>): (r: Result<Header>)
    ensures r.Ok? <==> lines != [] && IntAt(SplitSpace(lines[0]), 0).Ok?
                       && IntAt(SplitSpace(lines[0]), 1).Ok? && IntAt(SplitSpace(lines[0]), 2).Ok?
    ensures r.Ok? ==> var parts := SplitSpace(lines[0]);
                      r.value == Header(IntAt(parts, 0).value, IntAt(parts, 1).value, IntAt(parts, 2).value)
  {
    if lines == [] then Err(MissingLine(0))
    else
      var parts := SplitSpace(lines[0]);
      match IntAt(parts, 0)
      case Err(e) => Err(e)
      case Ok(numberOfPoints) =>
        match IntAt(parts, 1)
        case Err(e) => Err(e)
        case Ok(dimension) =>
          match IntAt(parts, 2)
          case Err(e) => Err(e)
          case Ok(nbTetra) => Ok(Header(numberOfPoints, dimension, nbTetra))
  }

  /** The header the converter writes reads back as its node count, dimension and element
      count. */
  lemma HeaderOfConverterHeader(nodeCount: int, dimension: int, elementCount: int, lines: seq<string>)
    requires IsInt32(nodeCount) && IsInt32(dimension) && IsInt32(elementCount)
    requires lines != [] && lines[0] == AbstractMeshConverter.HeaderLine(nodeCount, dimension, elementCount)
    ensures HeaderOf(lines) == Ok(Header(nodeCount, dimension, elementCount))
  {
    var words := [IntToString(nodeCount), IntToString(dimension), IntToString(elementCount), IntToString(dimension + 1)];
    UtilityClass.HeaderLineWords(nodeCount, dimension, elementCount);
    SplitSpaceOfWords(words);
    ParseIntOfIntToString(nodeCount);
    ParseIntOfIntToString(dimension);
    ParseIntOfIntToString(elementCount);
  }

  // ---------- points ----------

  /** Double.parseDouble(line.substring(begin, end)) */
  function NumberIn(line: string, begin: int, end: int, parseDouble: string -> Option<real>): (r: Result<real>)
    ensures r.Ok? <==> 0 <= begin <= end <= |line| && parseDouble(line[begin..end]).Some?
    ensures r.Ok? ==> r.value == parseDouble(line[begin..end]).value
  {
    match Substring(line, begin, end)
    case Err(e) => Err(e)
    case Ok(t) =>
      assert t == line[begin..end];
      match parseDouble(t)
      case None => Err(NotANumber(t))
      case Some(v) => Ok(v)
  }

  /** A point line: in 3D "x y z" cut at the first two spaces, in 2D "x y" cut at the first
      space with z = 0. A line without the spaces is a StringIndexOutOfBoundsException. */
  function PointOf(line: string, is3D: bool, parseDouble: string -> Option<real>): (r: Result<Node>)
    ensures r.Ok? ==> ' ' in line
    ensures r.Ok? && !is3D ==> r.value.z == 0.0
    ensures r.Ok? ==> var idx1 := IndexOfFrom(line, ' ', 0);
                      0 <= idx1 && parseDouble(line[..idx1]) == Some(r.value.x)
  {
    var idx1 := IndexOfFrom(line, ' ', 0);
    if is3D then
      var idx2 := IndexOfFrom(line, ' ', idx1 + 1);
      match NumberIn(line, 0, idx1, parseDouble)
      case Err(e) => Err(e)
      case Ok(x) =>
        match NumberIn(line, idx1 + 1, idx2, parseDouble)
        case Err(e) => Err(e)
        case Ok(y) =>
          match NumberIn(line, idx2 + 1, |line|, parseDouble)
          case Err(e) => Err(e)
          case Ok(z) => Ok(Node(x, y, z))
    else
      match NumberIn(line, 0, idx1, parseDouble)
      case Err(e) => Err(e)
      case Ok(x) =>
        match NumberIn(line, idx1 + 1, |line|, parseDouble)
        case Err(e) => Err(e)
        case Ok(y) => Ok(Node(x, y, 0.0))
  }

  /** The first space at or after from follows a word a that starts there. */
  lemma FirstSpaceAfterWord(s: string, from: nat, a: string)
    requires from + |a| < |s| && s[from..from + |a|] == a && ' ' !in a && s[from + |a|] == ' '
    ensures IndexOfFrom(s, ' ', from) == from + |a|
  {
    assert forall i :: from <= i < from + |a| ==> s[i] == a[i - from];
  }

  /** The coordinate x is printed without a space, and Double.parseDouble reads the printed
      text back as x, with or without a trailing space. */
  predicate ReadsBackAt(formatCoord: real -> string, parseDouble: string -> Option<real>, x: real) {
    && ' ' !in formatCoord(x)
    && parseDouble(formatCoord(x)) == Some(x)
    && parseDouble(formatCoord(x) + " ") == Some(x)
  }

  /** The coordinates of n that a node line of dimension d prints all read back. */
  predicate NodeReadsBack(d: Dimension, formatCoord: real -> string, parseDouble: string -> Option<real>, n: Node) {
    && ReadsBackAt(formatCoord, parseDouble, n.x)
    && ReadsBackAt(formatCoord, parseDouble, n.y)
    && (d == ThreeD ==> ReadsBackAt(formatCoord, parseDouble, n.z))
  }

  /** Every node's printed coordinates read back. */
  predicate NodesReadBack(d: Dimension, formatCoord: real -> string, parseDouble: string -> Option<real>, nodes: seq<Node>) {
    forall i :: 0 <= i < |nodes| ==> NodeReadsBack(d, formatCoord, parseDouble, nodes[i])
  }

  /** The read-back condition can be met: a format that prints 0 and 1 as "0" and "1" and a
      parse that reads exactly those texts back satisfy it for coordinates drawn from 0 and 1. */
  lemma ReadsBackSatisfiable()
    ensures var formatCoord := (x: real) => if x == 0.0 then "0" else "1";
            var parseDouble := (s: string) => if s == "0" || s == "0 " then Some(0.0)
                                              else if s == "1" || s == "1 " then Some(1.0) else None;
            && NodeReadsBack(ThreeD, formatCoord, parseDouble, Node(0.0, 1.0, 1.0))
            && NodesReadBack(TwoD, formatCoord, parseDouble, [Node(0.0, 0.0, 5.0), Node(1.0, 0.0, 7.0)])
            && !ReadsBackAt(formatCoord, parseDouble, 0.5)
  {
    var formatCoord := (x: real) => if x == 0.0 then "0" else "1";
    var parseDouble := (s: string) => if s == "0" || s == "0 " then Some(0.0)
                                      else if s == "1" || s == "1 " then Some(1.0) else None;
    assert "0" + " " == "0 " && "1" + " " == "1 ";
    var nodes := [Node(0.0, 0.0, 5.0), Node(1.0, 0.0, 7.0)];
    assert NodeReadsBack(TwoD, formatCoord, parseDouble, nodes[0]);
    assert NodeReadsBack(TwoD, formatCoord, parseDouble, nodes[1]);
  }

  /** A 3D node line "x y z " reads back as the node. */
  lemma NodeLine3DReadsBack(formatCoord: real -> string, parseDouble: string -> Option<real>, n: Node)
    requires NodeReadsBack(ThreeD, formatCoord, parseDouble, n)
    ensures PointOf(MeshConverter3D.FormatNode(formatCoord, n), true, parseDouble) == Ok(n)
  {
    var fx, fy, fz := formatCoord(n.x), formatCoord(n.y), formatCoord(n.z);
    var line := MeshConverter3D.FormatNode(formatCoord, n);
    var i1 := |fx|;
    var i2 := |fx| + 1 + |fy|;
    assert line == fx + " " + fy + " " + (fz + " ");
    assert line[..i1] == fx;
    FirstSpaceAfterWord(line, 0, fx);
    assert line[i1 + 1..i2] == fy;
    FirstSpaceAfterWord(line, i1 + 1, fy);
    assert line[i2 + 1..|line|] == fz + " ";
    PointOf3DFrom(line, parseDouble, i1, i2, n);
  }

  /** The 3D reading of a line from its two spaces and its three numbers. */
  lemma PointOf3DFrom(line: string, parseDouble: string -> Option<real>, i1: nat, i2: nat, n: Node)
    requires IndexOfFrom(line, ' ', 0) == i1 && IndexOfFrom(line, ' ', i1 + 1) == i2
    requires i2 + 1 <= |line|
    requires parseDouble(line[..i1]) == Some(n.x) && parseDouble(line[i1 + 1..i2]) == Some(n.y)
    requires parseDouble(line[i2 + 1..|line|]) == Some(n.z)
    ensures PointOf(line, true, parseDouble) == Ok(n)
  {
    assert NumberIn(line, 0, i1, parseDouble) == Ok(n.x);
  }

  /** A 2D node line "x y " reads back as the node with z = 0. */
  lemma NodeLine2DReadsBack(formatCoord: real -> string, parseDouble: string -> Option<real>, n: Node)
    requires NodeReadsBack(TwoD, formatCoord, parseDouble, n)
    ensures PointOf(MeshConverter2D.FormatNode(formatCoord, n), false, parseDouble) == Ok(Node(n.x, n.y, 0.0))
  {
    var fx, fy := formatCoord(n.x), formatCoord(n.y);
    var line := MeshConverter2D.FormatNode(formatCoord, n);
    var i1 := |fx|;
    assert line == fx + " " + (fy + " ");
    assert line[..i1] == fx;
    FirstSpaceAfterWord(line, 0, fx);
    assert line[i1 + 1..|line|] == fy + " ";
    assert NumberIn(line, 0, i1, parseDouble) == Ok(n.x);
    assert NumberIn(line, i1 + 1, |line|, parseDouble) == Ok(n.y);
  }

  /** A node line the converter writes reads back as the node (with z = 0 in 2D), in the
      dimension it was written in. */
  lemma NodeLineReadsBack(d: Dimension, formatCoord: real -> string, parseDouble: string -> Option<real>, n: Node)
    requires NodeReadsBack(d, formatCoord, parseDouble, n)
    ensures PointOf(AbstractMeshConverter.FormatNode(d, formatCoord, n), d == ThreeD, parseDouble)
            == Ok(if d == ThreeD then n else Node(n.x, n.y, 0.0))
  {
    if d == ThreeD {
      NodeLine3DReadsBack(formatCoord, parseDouble, n);
    } else {
      NodeLine2DReadsBack(formatCoord, parseDouble, n);
    }
  }

  function PointsRead(lines: seq<string>, is3D: bool, parseDouble: string -> Option<real>, n: nat): (r: Result<seq<Node>>)
    ensures r.Ok? ==> |r.value| == n && (n > 0 ==> n < |lines|)
  {
    PointsDecoded(DecodeLines(lines, is3D, parseDouble), n)
  }

  /** Every line read as a point. */
  function DecodeLines(lines: seq<string>, is3D: bool, parseDouble: string -> Option<real>): (d: seq<Result<Node>>)
    ensures |d| == |lines|
  {
    seq(|lines|, k requires 0 <= k < |lines| => PointOf(lines[k], is3D, parseDouble))
  }

  /** Lines 1 to n of the decoded lines, in order, stopping at the first that is missing or
      is not a point. */
  function PointsDecoded(d: seq<Result<Node>>, n: nat): (r: Result<seq<Node>>)
    ensures r.Ok? ==> |r.value| == n && (n > 0 ==> n < |d|)
  {
    if n == 0 then Ok([])
    else match PointsDecoded(d, n - 1)
      case Err(e) => Err(e)
      case Ok(ps) =>
        if n >= |d| then Err(MissingLine(n))
        else match d[n]
          case Err(e) => Err(e)
          case Ok(p) => Ok(ps + [p])
  }

  /** Every point is added to the full and surface meshes (and the reduced one when
      reduced); nothing else changes. */
  function AddPoints(r: Resolution, ps: seq<Node>): (r': Resolution)
    ensures r'.full.vertices == r.full.vertices + ps && r'.surface.vertices == r.surface.vertices + ps
    ensures r'.reduced.vertices == r.reduced.vertices + (if r.isReduced then ps else [])
    ensures r'.full.triangles == r.full.triangles && r'.reduced.triangles == r.reduced.triangles
    ensures r'.surface.triangles == r.surface.triangles
    ensures r'.isReduced == r.isReduced && r'.factor == r.factor && r'.counter == r.counter
    ensures Consistent(r) ==> Consistent(r')
  {
    if ps == [] then r
    else
      var init := ps[..|ps| - 1];
      assert ps == init + [ps[|ps| - 1]];
      AddPointTo(AddPoints(r, init), ps[|ps| - 1])
  }

  lemma AddPointsSnoc(r: Resolution, ps: seq<Node>, p: Node)
    ensures AddPoints(r, ps + [p]) == AddPointTo(AddPoints(r, ps), p)
  {
    assert (ps + [p])[..|ps|] == ps;
  }

  lemma PointsDecodedSnoc(d: seq<Result<Node>>, i: nat, ps: seq<Node>)
    requires PointsDecoded(d, i) == Ok(ps) && i + 1 < |d| && d[i + 1].Ok?
    ensures PointsDecoded(d, i + 1) == Ok(ps + [d[i + 1].value])
  {
  }

  // ---------- faces ----------

  /** What one element line becomes: add2DTriangle, addTriangleSurface or addTetraFaces. */
  datatype FaceLine =
    | Triangle2D(v1: int, v2: int, v3: int)
    | Surface(v1: int, v2: int, v3: int)
    | Tetra(v1: int, v2: int, v3: int, v4: int)

  /** parseFaces2D: three 0-based indices. */
  function Face2DOf(parts: seq<string>): (r: Result<FaceLine>)
    ensures r.Ok? <==> IntAt(parts, 0).Ok? && IntAt(parts, 1).Ok? && IntAt(parts, 2).Ok?
    ensures r.Ok? ==> r.value == Triangle2D(IndexAt(parts, 0).value, IndexAt(parts, 1).value, IndexAt(parts, 2).value)
  {
    match IndexAt(parts, 0)
    case Err(e) => Err(e)
    case Ok(v1) =>
      match IndexAt(parts, 1)
      case Err(e) => Err(e)
      case Ok(v2) =>
        match IndexAt(parts, 2)
        case Err(e) => Err(e)
        case Ok(v3) => Ok(Triangle2D(v1, v2, v3))
  }

  /** parseFaces3D: four 0-based indices; a fourth token 0 (a fourth index of -1) marks a
      boundary triangle, anything else a tetrahedron. */
  function Face3DOf(parts: seq<string>): (r: Result<FaceLine>)
    ensures r.Ok? <==> IntAt(parts, 0).Ok? && IntAt(parts, 1).Ok? && IntAt(parts, 2).Ok? && IntAt(parts, 3).Ok?
    ensures r.Ok? ==> (r.value.Surface? <==> IntAt(parts, 3).value == 0) && (r.value.Surface? || r.value.Tetra?)
    ensures r.Ok? ==> r.value.v1 == IndexAt(parts, 0).value && r.value.v2 == IndexAt(parts, 1).value
                      && r.value.v3 == IndexAt(parts, 2).value
    ensures r.Ok? && r.value.Tetra? ==> r.value.v4 == IndexAt(parts, 3).value
  {
    match IndexAt(parts, 0)
    case Err(e) => Err(e)
    case Ok(v1) =>
      match IndexAt(parts, 1)
      case Err(e) => Err(e)
      case Ok(v2) =>
        match IndexAt(parts, 2)
        case Err(e) => Err(e)
        case Ok(v3) =>
          match IndexAt(parts, 3)
          case Err(e) => Err(e)
          case Ok(last) => if last == -1 then Ok(Surface(v1, v2, v3)) else Ok(Tetra(v1, v2, v3, last))
  }

  /** handleFaces on the tokens of one line: the branch of the global dimension setting
      (not of the header). */
  function FaceOf(parts: seq<string>, is3DSetting: bool): Result<FaceLine> {
    if is3DSetting then Face3DOf(parts) else Face2DOf(parts)
  }

  /** Every line split on single spaces, as line.split(" ") does. */
  function SplitLines(lines: seq<string>): (r: seq<seq<string>>)
    ensures |r| == |lines|
  {
    seq(|lines|, k requires 0 <= k < |lines| => SplitSpace(lines[k]))
  }

  /** The element lines, given by their tokens, read in order; the first line that does not
      parse is the error. */
  function FacesOf(fields: seq<seq<string>>, is3DSetting: bool): (r: Result<seq<FaceLine>>)
    ensures r.Ok? ==> |r.value| == |fields|
  {
    if fields == [] then Ok([])
    else
      match FacesOf(fields[..|fields| - 1], is3DSetting)
      case Err(e) => Err(e)
      case Ok(fs) =>
        match FaceOf(fields[|fields| - 1], is3DSetting)
        case Err(e) => Err(e)
        case Ok(f) => Ok(fs + [f])
  }

  /** The element lines of a file, read in order. */
  function FacesRead(faceLines: seq<string>, is3DSetting: bool): Result<seq<FaceLine>> {
    FacesOf(SplitLines(faceLines), is3DSetting)
  }

  /** The element lines read exactly when each of them does, one face per line. */
  lemma {:induction false} FacesOfEach(fields: seq<seq<string>>, is3DSetting: bool)
    ensures FacesOf(fields, is3DSetting).Ok? <==> forall i :: 0 <= i < |fields| ==> FaceOf(fields[i], is3DSetting).Ok?
    ensures FacesOf(fields, is3DSetting).Ok? ==>
              forall i :: 0 <= i < |fields| ==> FaceOf(fields[i], is3DSetting) == Ok(FacesOf(fields, is3DSetting).value[i])
  {
    if fields != [] {
      var init, last := fields[..|fields| - 1], fields[|fields| - 1];
      FacesOfEach(init, is3DSetting);
      assert forall i :: 0 <= i < |init| ==> init[i] == fields[i];
      if FacesOf(init, is3DSetting).Ok? && FaceOf(last, is3DSetting).Ok? {
        assert FacesOf(fields, is3DSetting).value == FacesOf(init, is3DSetting).value + [FaceOf(last, is3DSetting).value];
      }
    }
  }

  // ---------- element lines written by the converter ----------

  /** Every index of an element fits Java's int. */
  predicate AllInt32(e: seq<int>) {
    forall k :: 0 <= k < |e| ==> IsInt32(e[k])
  }

  /** The words of an element line split back into those words, each parsing to its value. */
  lemma WordsReadBack(values: seq<int>, words: seq<string>)
    requires |values| == |words| >= 1 && AllInt32(values)
    requires forall k :: 0 <= k < |words| ==> words[k] == IntToString(values[k])
    ensures SplitSpace(Unwords(words) + " ") == words
    ensures forall k :: 0 <= k < |words| ==> IntAt(words, k) == Ok(values[k])
  {
    forall k | 0 <= k < |words|
      ensures words[k] != "" && ' ' !in words[k] && IntAt(words, k) == Ok(values[k])
    {
      IntToStringIsWord(values[k]);
      ParseIntOfIntToString(values[k]);
    }
    SplitSpaceOfTerminatedWords(words);
  }

  /** A 3D element line "%d %d %d %d " reads back, under the 3D setting, as a tetrahedron of
      its indices shifted to 0-based, or as a boundary triangle when its fourth index is 0. */
  lemma TetraLineReadsBack(e: seq<int>)
    requires |e| == 4 && AllInt32(e)
    ensures FaceOf(SplitSpace(AbstractMeshConverter.FormatMainElement(ThreeD, e)), true)
            == Ok(if e[3] == 0 then Surface(Decrement32(e[0]), Decrement32(e[1]), Decrement32(e[2]))
                  else Tetra(Decrement32(e[0]), Decrement32(e[1]), Decrement32(e[2]), Decrement32(e[3])))
  {
    MeshConverter3D.FormatsAreWords(e);
    WordsReadBack(e, [IntToString(e[0]), IntToString(e[1]), IntToString(e[2]), IntToString(e[3])]);
  }

  /** A 3D boundary line "%d %d %d 0 " reads back, under the 3D setting, as a boundary
      triangle: the trailing 0 is the sentinel parseFaces3D tests for. */
  lemma SurfaceLineReadsBack(e: seq<int>)
    requires |e| == 3 && AllInt32(e)
    ensures FaceOf(SplitSpace(AbstractMeshConverter.FormatBoundaryElement(ThreeD, e)), true)
            == Ok(Surface(Decrement32(e[0]), Decrement32(e[1]), Decrement32(e[2])))
  {
    assert IntToString(0) == "0";
    var e4 := e + [0];
    MeshConverter3D.FormatsAreWords(e4);
    assert MeshConverter3D.FormatBoundaryElement(e) == MeshConverter3D.FormatBoundaryElement(e4);
    WordsReadBack(e4, [IntToString(e[0]), IntToString(e[1]), IntToString(e[2]), "0"]);
  }

  /** A 2D element line "%d %d %d " reads back, under the 2D setting, as a triangle of its
      indices shifted to 0-based. */
  lemma TriangleLineReadsBack(e: seq<int>)
    requires |e| == 3 && AllInt32(e)
    ensures FaceOf(SplitSpace(AbstractMeshConverter.FormatMainElement(TwoD, e)), false)
            == Ok(Triangle2D(Decrement32(e[0]), Decrement32(e[1]), Decrement32(e[2])))
  {
    MeshConverter2D.FormatsAreWords(e);
    WordsReadBack(e, [IntToString(e[0]), IntToString(e[1]), IntToString(e[2])]);
  }

  /** A 2D boundary line "%d %d 0 " reads back, under the 2D setting, as a triangle whose
      third index is -1: the sentinel add2DTriangle treats as a boundary edge. */
  lemma EdgeLineReadsBack(e: seq<int>)
    requires |e| == 2 && AllInt32(e)
    ensures FaceOf(SplitSpace(AbstractMeshConverter.FormatBoundaryElement(TwoD, e)), false)
            == Ok(Triangle2D(Decrement32(e[0]), Decrement32(e[1]), -1))
  {
    assert IntToString(0) == "0";
    var e3 := e + [0];
    MeshConverter2D.FormatsAreWords(e3);
    assert MeshConverter2D.FormatBoundaryElement(e) == MeshConverter2D.FormatBoundaryElement(e3);
    WordsReadBack(e3, [IntToString(e[0]), IntToString(e[1]), "0"]);
  }

  function ApplyFace(r: Resolution, f: FaceLine): (r': Resolution)
    requires Consistent(r)
    ensures Consistent(r') && r'.isReduced == r.isReduced && r'.factor == r.factor
  {
    match f
    case Triangle2D(v1, v2, v3) => Add2DTriangleTo(r, v1, v2, v3)
    case Surface(v1, v2, v3) => AddTriangleSurfaceTo(r, v1, v2, v3)
    case Tetra(v1, v2, v3, v4) => AddTetraFacesTo(r, v1, v2, v3, v4)
  }

  function ApplyFaces(r: Resolution, fs: seq<FaceLine>): (r': Resolution)
    requires Consistent(r)
    ensures Consistent(r') && r'.isReduced == r.isReduced && r'.factor == r.factor
  {
    if fs == [] then r else ApplyFace(ApplyFaces(r, fs[..|fs| - 1]), fs[|fs| - 1])
  }

  lemma ApplyFacesSnoc(r: Resolution, fs: seq<FaceLine>, f: FaceLine)
    requires Consistent(r)
    ensures ApplyFaces(r, fs + [f]) == ApplyFace(ApplyFaces(r, fs), f)
  {
    assert (fs + [f])[..|fs|] == fs;
  }

  /** The tetrahedron lines among the faces. */
  function TetraCount(fs: seq<FaceLine>): (c: nat)
    ensures c <= |fs|
  {
    if fs == [] then 0 else TetraCount(fs[..|fs| - 1]) + (if fs[|fs| - 1].Tetra? then 1 else 0)
  }

  /** A boundary line: a 3D boundary triangle, or a 2D line with the third index -1. */
  predicate IsBoundaryLine(f: FaceLine) {
    f.Surface? || (f.Triangle2D? && f.v3 == -1)
  }

  /** The boundary lines among the faces. */
  function BoundaryCount(fs: seq<FaceLine>): (c: nat)
    ensures c <= |fs|
  {
    if fs == [] then 0 else BoundaryCount(fs[..|fs| - 1]) + (if IsBoundaryLine(fs[|fs| - 1]) then 1 else 0)
  }

  /** What the element lines add: every line is one triangle of the full mesh and a
      tetrahedron three more; every boundary line is one triangle of the surface mesh; a
      reduced mesh numbers the tetrahedra and keeps the four faces of those numbered by a
      multiple of the factor, besides every boundary line; no line adds a point. */
  lemma {:induction false} ApplyFacesCounts(r: Resolution, fs: seq<FaceLine>)
    requires Consistent(r)
    ensures ApplyFaces(r, fs).counter == r.counter + (if r.isReduced then TetraCount(fs) else 0)
    ensures |ApplyFaces(r, fs).full.triangles| == |r.full.triangles| + |fs| + 3 * TetraCount(fs)
    ensures |ApplyFaces(r, fs).surface.triangles| == |r.surface.triangles| + BoundaryCount(fs)
    ensures r.isReduced ==> |ApplyFaces(r, fs).reduced.triangles| == |r.reduced.triangles| + BoundaryCount(fs)
                              + 4 * (Kept(r.counter + TetraCount(fs), r.factor) - Kept(r.counter, r.factor))
    ensures !r.isReduced ==> ApplyFaces(r, fs).reduced == r.reduced
    ensures ApplyFaces(r, fs).full.vertices == r.full.vertices && ApplyFaces(r, fs).surface.vertices == r.surface.vertices
    ensures ApplyFaces(r, fs).reduced.vertices == r.reduced.vertices
  {
    if fs != [] {
      var init, f := fs[..|fs| - 1], fs[|fs| - 1];
      var m := ApplyFaces(r, init);
      ApplyFacesCounts(r, init);
      ApplyFaceCounts(m, f);
      assert ApplyFaces(r, fs) == ApplyFace(m, f);
      assert TetraCount(fs) == TetraCount(init) + (if f.Tetra? then 1 else 0);
      assert BoundaryCount(fs) == BoundaryCount(init) + (if IsBoundaryLine(f) then 1 else 0);
    }
  }

  /** What one element line adds. */
  lemma ApplyFaceCounts(r: Resolution, f: FaceLine)
    requires Consistent(r)
    ensures var r' := ApplyFace(r, f);
            var t := if f.Tetra? then 1 else 0;
            var s := if IsBoundaryLine(f) then 1 else 0;
            && r'.counter == r.counter + (if r.isReduced then t else 0)
            && |r'.full.triangles| == |r.full.triangles| + 1 + 3 * t
            && |r'.surface.triangles| == |r.surface.triangles| + s
            && (r.isReduced ==> |r'.reduced.triangles| == |r.reduced.triangles| + s
                                  + 4 * (Kept(r.counter + t, r.factor) - Kept(r.counter, r.factor)))
            && (!r.isReduced ==> r'.reduced == r.reduced)
            && r'.full.vertices == r.full.vertices && r'.surface.vertices == r.surface.vertices
            && r'.reduced.vertices == r.reduced.vertices
  {
  }

  /** A reduced mesh whose file has no more tetrahedra than its header announced keeps at
      most MAX_REDUCED_TETRA of them: at most four times that many triangles besides the
      boundary lines. */
  lemma ReducedMeshWithinLimit(nbTetra: int, fs: seq<FaceLine>)
    requires nbTetra > MaxReducedTetra && TetraCount(fs) <= nbTetra
    ensures var r' := ApplyFaces(Initial(nbTetra), fs);
            r'.isReduced && |r'.reduced.triangles| <= BoundaryCount(fs) + 4 * MaxReducedTetra
  {
    ApplyFacesCounts(Initial(nbTetra), fs);
    KeptWithinLimit(nbTetra, TetraCount(fs));
  }

  // ---------- the whole file ----------

  /** parseFile2TriangleMesh: the header, max(numberOfPoints, 0) point lines (3D points when
      the header dimension is 3), every remaining line as an element line, then one texture
      coordinate. */
  function ParsedFile(lines: seq<string>, is3DSetting: bool, parseDouble: string -> Option<real>): Result<Resolution> {
    match HeaderOf(lines)
    case Err(e) => Err(e)
    case Ok(h) => ParsedBody(lines, h, is3DSetting, parseDouble)
  }

  /** Everything after the header. */
  function ParsedBody(lines: seq<string>, h: Header, is3DSetting: bool, parseDouble: string -> Option<real>): Result<Resolution>
    requires lines != []
  {
    var n := if h.numberOfPoints > 0 then h.numberOfPoints else 0;
    match PointsRead(lines, h.dimension == 3, parseDouble, n)
    case Err(e) => Err(e)
    case Ok(ps) =>
      match FacesRead(lines[n + 1..], is3DSetting)
      case Err(e) => Err(e)
      case Ok(fs) => Ok(AddTexCoordsTo(ApplyFaces(AddPoints(Initial(h.nbTetra), ps), fs)))
  }

  /** parseFaces2D */
  method ParseFaces2D(coordinates: seq<string>, meshResolution: MeshResolution) returns (o: Outcome)
    requires meshResolution.Valid()
    modifies meshResolution, meshResolution.triangleMesh, meshResolution.triangleMeshReduced, meshResolution.triangleSurface
    ensures meshResolution.Valid()
    ensures o.Pass? <==> Face2DOf(coordinates).Ok?
    ensures o.Fail? ==> o.error == Face2DOf(coordinates).error
    ensures o.Pass? ==> meshResolution.State() == ApplyFace(old(meshResolution.State()), Face2DOf(coordinates).value)
  {
    var v1 := IndexAt(coordinates, 0);
    if v1.Err? { return Fail(v1.error); }
    var v2 := IndexAt(coordinates, 1);
    if v2.Err? { return Fail(v2.error); }
    var v3 := IndexAt(coordinates, 2);
    if v3.Err? { return Fail(v3.error); }
    meshResolution.Add2DTriangle(v1.value, v2.value, v3.value);
    return Pass;
  }

  /** parseFaces3D */
  method ParseFaces3D(coordinates: seq<string>, meshResolution: MeshResolution) returns (o: Outcome)
    requires meshResolution.Valid()
    modifies meshResolution, meshResolution.triangleMesh, meshResolution.triangleMeshReduced, meshResolution.triangleSurface
    ensures meshResolution.Valid()
    ensures o.Pass? <==> Face3DOf(coordinates).Ok?
    ensures o.Fail? ==> o.error == Face3DOf(coordinates).error
    ensures o.Pass? ==> meshResolution.State() == ApplyFace(old(meshResolution.State()), Face3DOf(coordinates).value)
  {
    var v1 := IndexAt(coordinates, 0);
    if v1.Err? { return Fail(v1.error); }
    var v2 := IndexAt(coordinates, 1);
    if v2.Err? { return Fail(v2.error); }
    var v3 := IndexAt(coordinates, 2);
    if v3.Err? { return Fail(v3.error); }
    var last := IndexAt(coordinates, 3);
    if last.Err? { return Fail(last.error); }
    if last.value == -1 {
      meshResolution.AddTriangleSurface(v1.value, v2.value, v3.value);
    } else {
      meshResolution.AddTetraFaces(v1.value, v2.value, v3.value, last.value);
    }
    return Pass;
  }

  /** handleFaces: every line from start to the end of the file is an element line. The
      lines are split up front; splitting is pure, so this reads the same faces. */
  method HandleFaces(lines: seq<string>, start: nat, is3DSetting: bool, meshResolution: MeshResolution) returns (o: Outcome)
    requires start <= |lines| && meshResolution.Valid()
    modifies meshResolution, meshResolution.triangleMesh, meshResolution.triangleMeshReduced, meshResolution.triangleSurface
    ensures meshResolution.Valid()
    ensures o.Pass? <==> FacesRead(lines[start..], is3DSetting).Ok?
    ensures o.Fail? ==> o.error == FacesRead(lines[start..], is3DSetting).error
    ensures o.Pass? ==> meshResolution.State() == ApplyFaces(old(meshResolution.State()), FacesRead(lines[start..], is3DSetting).value)
  {
    var fields := SplitLines(lines[start..]);
    o := ReadFaces(fields, is3DSetting, meshResolution);
  }

  /** The loop of handleFaces over the split lines. */
  method ReadFaces(fields: seq<seq<string>>, is3DSetting: bool, meshResolution: MeshResolution) returns (o: Outcome)
    requires meshResolution.Valid()
    modifies meshResolution, meshResolution.triangleMesh, meshResolution.triangleMeshReduced, meshResolution.triangleSurface
    ensures meshResolution.Valid()
    ensures o.Pass? <==> FacesOf(fields, is3DSetting).Ok?
    ensures o.Fail? ==> o.error == FacesOf(fields, is3DSetting).error
    ensures o.Pass? ==> meshResolution.State() == ApplyFaces(old(meshResolution.State()), FacesOf(fields, is3DSetting).value)
  {
    ghost var before := meshResolution.State();
    ghost var fs: seq<FaceLine> := [];
    var i := 0;
    while i < |fields|
      invariant 0 <= i <= |fields|
      invariant meshResolution.Valid()
      invariant FacesOf(fields[..i], is3DSetting) == Ok(fs)
      invariant meshResolution.State() == ApplyFaces(before, fs)
    {
      o := ParseFace(fields[i], is3DSetting, meshResolution);
      if o.Fail? {
        FacesOfFailsAt(fields, is3DSetting, i);
        return;
      }
      FacesOfSnoc(fields, is3DSetting, i, fs);
      ApplyFacesSnoc(before, fs, FaceOf(fields[i], is3DSetting).value);
      fs := fs + [FaceOf(fields[i], is3DSetting).value];
      i := i + 1;
    }
    assert fields[..i] == fields;
    return Pass;
  }

  /** The branch of handleFaces on the dimension setting. */
  method ParseFace(parts: seq<string>, is3DSetting: bool, meshResolution: MeshResolution) returns (o: Outcome)
    requires meshResolution.Valid()
    modifies meshResolution, meshResolution.triangleMesh, meshResolution.triangleMeshReduced, meshResolution.triangleSurface
    ensures meshResolution.Valid()
    ensures o.Pass? <==> FaceOf(parts, is3DSetting).Ok?
    ensures o.Fail? ==> o.error == FaceOf(parts, is3DSetting).error
    ensures o.Pass? ==> meshResolution.State() == ApplyFace(old(meshResolution.State()), FaceOf(parts, is3DSetting).value)
  {
    if is3DSetting {
      o := ParseFaces3D(parts, meshResolution);
    } else {
      o := ParseFaces2D(parts, meshResolution);
    }
  }

  lemma FacesOfSnoc(fields: seq<seq<string>>, is3DSetting: bool, i: nat, fs: seq<FaceLine>)
    requires i < |fields| && FacesOf(fields[..i], is3DSetting) == Ok(fs) && FaceOf(fields[i], is3DSetting).Ok?
    ensures FacesOf(fields[..i + 1], is3DSetting) == Ok(fs + [FaceOf(fields[i], is3DSetting).value])
  {
    assert fields[..i + 1][..i] == fields[..i] && fields[..i + 1][i] == fields[i];
  }

  /** The first line that does not parse is the error of the whole. */
  lemma FacesOfFailsAt(fields: seq<seq<string>>, is3DSetting: bool, i: nat)
    requires i < |fields| && FacesOf(fields[..i], is3DSetting).Ok? && FaceOf(fields[i], is3DSetting).Err?
    ensures FacesOf(fields, is3DSetting) == Err(FaceOf(fields[i], is3DSetting).error)
  {
    assert fields[..i + 1][..i] == fields[..i] && fields[..i + 1][i] == fields[i];
    FacesOfFailsFrom(fields, is3DSetting, i + 1);
  }

  /** A prefix of the element lines that does not read makes the whole read fail with the
      same error. */
  lemma {:induction false} FacesOfFailsFrom(fields: seq<seq<string>>, is3DSetting: bool, n: nat)
    requires n <= |fields| && FacesOf(fields[..n], is3DSetting).Err?
    ensures FacesOf(fields, is3DSetting) == FacesOf(fields[..n], is3DSetting)
    decreases |fields| - n
  {
    if n < |fields| {
      var longer := fields[..n + 1];
      assert longer[..n] == fields[..n];
      FacesOfFailsFrom(fields, is3DSetting, n + 1);
    } else {
      assert fields[..n] == fields;
    }
  }

  /** parseFile2TriangleMesh, with the global dimension setting as is3DSetting and
      Double.parseDouble as parseDouble. */
  method ParseFile2TriangleMesh(lines: seq<string>, is3DSetting: bool, parseDouble: string -> Option<real>)
    returns (r: Result<MeshResolution>)
    ensures r.Ok? <==> ParsedFile(lines, is3DSetting, parseDouble).Ok?
    ensures r.Err? ==> r.error == ParsedFile(lines, is3DSetting, parseDouble).error
    ensures r.Ok? ==> fresh(r.value) && r.value.Valid() && r.value.State() == ParsedFile(lines, is3DSetting, parseDouble).value
  {
    var header := HeaderOf(lines);
    if header.Err? {
      return Err(header.error);
    }
    r := ParseBody(lines, header.value, is3DSetting, parseDouble);
  }

  /** parseFile2TriangleMesh after the header: the MeshResolution, the points, the faces and
      the texture coordinate. */
  method ParseBody(lines: seq<string>, h: Header, is3DSetting: bool, parseDouble: string -> Option<real>)
    returns (r: Result<MeshResolution>)
    requires lines != []
    ensures r.Ok? <==> ParsedBody(lines, h, is3DSetting, parseDouble).Ok?
    ensures r.Err? ==> r.error == ParsedBody(lines, h, is3DSetting, parseDouble).error
    ensures r.Ok? ==> fresh(r.value) && r.value.Valid() && r.value.State() == ParsedBody(lines, h, is3DSetting, parseDouble).value
  {
    var meshResolution := new MeshResolution(h.nbTetra);
    var is3D := h.dimension == 3;
    var n := if h.numberOfPoints > 0 then h.numberOfPoints else 0;
    var o := ReadPoints(lines, n, is3D, parseDouble, meshResolution);
    if o.Fail? {
      return Err(o.error);
    }
    o := HandleFaces(lines, n + 1, is3DSetting, meshResolution);
    if o.Fail? {
      return Err(o.error);
    }
    meshResolution.AddTexCoords();
    return Ok(meshResolution);
  }

  /** The point loop of parseFile2TriangleMesh: lines 1 .. n. */
  method ReadPoints(lines: seq<string>, n: nat, is3D: bool, parseDouble: string -> Option<real>, meshResolution: MeshResolution)
    returns (o: Outcome)
    requires meshResolution.Valid()
    modifies meshResolution.triangleMesh, meshResolution.triangleMeshReduced, meshResolution.triangleSurface
    ensures meshResolution.Valid()
    ensures o.Pass? <==> PointsRead(lines, is3D, parseDouble, n).Ok?
    ensures o.Fail? ==> o.error == PointsRead(lines, is3D, parseDouble, n).error
    ensures o.Pass? ==> meshResolution.State() == AddPoints(old(meshResolution.State()), PointsRead(lines, is3D, parseDouble, n).value)
  {
    var decoded := DecodeLines(lines, is3D, parseDouble);
    o := AddDecodedPoints(decoded, n, meshResolution);
  }

  /** The point loop over lines already read as points. */
  method AddDecodedPoints(d: seq<Result<Node>>, n: nat, meshResolution: MeshResolution) returns (o: Outcome)
    requires meshResolution.Valid()
    modifies meshResolution.triangleMesh, meshResolution.triangleMeshReduced, meshResolution.triangleSurface
    ensures meshResolution.Valid()
    ensures o.Pass? <==> PointsDecoded(d, n).Ok?
    ensures o.Fail? ==> o.error == PointsDecoded(d, n).error
    ensures o.Pass? ==> meshResolution.State() == AddPoints(old(meshResolution.State()), PointsDecoded(d, n).value)
  {
    ghost var before := meshResolution.State();
    ghost var ps: seq<Node> := [];
    var i := 0;
    while i < n
      invariant 0 <= i <= n
      invariant meshResolution.Valid()
      invariant PointsDecoded(d, i) == Ok(ps)
      invariant meshResolution.State() == AddPoints(before, ps)
    {
      if i + 1 >= |d| {
        PointsDecodedFailsFrom(d, i + 1, n);
        return Fail(MissingLine(i + 1));
      }
      var point := d[i + 1];
      if point.Err? {
        PointsDecodedFailsFrom(d, i + 1, n);
        return Fail(point.error);
      }
      meshResolution.AddPoint(point.value);
      PointsDecodedSnoc(d, i, ps);
      AddPointsSnoc(before, ps, point.value);
      ps := ps + [point.value];
      i := i + 1;
    }
    return Pass;
  }

  lemma {:induction false} PointsDecodedFailsFrom(d: seq<Result<Node>>, m: nat, n: nat)
    requires m <= n && PointsDecoded(d, m).Err?
    ensures PointsDecoded(d, n) == PointsDecoded(d, m)
    decreases n - m
  {
    if m < n {
      PointsDecodedFailsFrom(d, m + 1, n);
    }
  }

  // ---------- the converter's output reads back ----------

  /** A node as the reader gets it back: unchanged in 3D, with z = 0 in 2D. */
  function AsRead(d: Dimension, n: Node): Node {
    if d == ThreeD then n else Node(n.x, n.y, 0.0)
  }

  /** The nodes as the reader gets them back. */
  function NodesAsRead(d: Dimension, nodes: seq<Node>): (ps: seq<Node>)
    ensures |ps| == |nodes|
  {
    seq(|nodes|, k requires 0 <= k < |nodes| => AsRead(d, nodes[k]))
  }

  /** The face a main element line reads back as, under the setting of its own dimension. */
  function MainFace(d: Dimension, e: seq<int>): FaceLine
    requires |e| == AbstractMeshConverter.NodesPerMainElement(d) && AllInt32(e)
  {
    if d == ThreeD then
      if e[3] == 0 then Surface(Decrement32(e[0]), Decrement32(e[1]), Decrement32(e[2]))
      else Tetra(Decrement32(e[0]), Decrement32(e[1]), Decrement32(e[2]), Decrement32(e[3]))
    else Triangle2D(Decrement32(e[0]), Decrement32(e[1]), Decrement32(e[2]))
  }

  /** The face a boundary element line reads back as: a boundary triangle in 3D, a triangle
      with the third index -1 in 2D. */
  function BoundaryFace(d: Dimension, e: seq<int>): (f: FaceLine)
    requires |e| == AbstractMeshConverter.NodesPerBoundaryElement(d) && AllInt32(e)
    ensures IsBoundaryLine(f)
  {
    if d == ThreeD then Surface(Decrement32(e[0]), Decrement32(e[1]), Decrement32(e[2]))
    else Triangle2D(Decrement32(e[0]), Decrement32(e[1]), -1)
  }

  /** Every index of every element fits Java's int. */
  predicate AllElementsInt32(elems: seq<seq<int>>) {
    forall i :: 0 <= i < |elems| ==> AllInt32(elems[i])
  }

  /** The faces the element lines of a converted file read back as: the main elements in
      order, then the boundary elements in order. */
  function ExpectedFaces(d: Dimension, mains: seq<seq<int>>, boundary: seq<seq<int>>): (fs: seq<FaceLine>)
    requires AbstractMeshConverter.OfWidth(mains, AbstractMeshConverter.NodesPerMainElement(d)) && AllElementsInt32(mains)
    requires AbstractMeshConverter.OfWidth(boundary, AbstractMeshConverter.NodesPerBoundaryElement(d)) && AllElementsInt32(boundary)
    ensures |fs| == |mains| + |boundary|
    ensures forall i :: 0 <= i < |mains| ==> fs[i] == MainFace(d, mains[i])
    ensures forall b :: 0 <= b < |boundary| ==> fs[|mains| + b] == BoundaryFace(d, boundary[b])
  {
    seq(|mains|, i requires 0 <= i < |mains| => MainFace(d, mains[i]))
      + seq(|boundary|, i requires 0 <= i < |boundary| => BoundaryFace(d, boundary[i]))
  }

  /** The points of a decoded run of lines that all read as points. */
  lemma {:induction false} PointsDecodedAll(dec: seq<Result<Node>>, n: nat, ps: seq<Node>)
    requires n < |dec| && |ps| == n
    requires forall k :: 0 <= k < n ==> dec[k + 1] == Ok(ps[k])
    ensures PointsDecoded(dec, n) == Ok(ps)
  {
    if n > 0 {
      var init := ps[..n - 1];
      PointsDecodedAll(dec, n - 1, init);
      assert init + [ps[n - 1]] == ps;
    }
  }

  /** Lines 1 .. |nodes| of a file laid out as the converter writes it read back as its
      nodes. */
  lemma ConverterPointsReadBack(d: Dimension, formatCoord: real -> string, parseDouble: string -> Option<real>,
                                lines: seq<string>, nodes: seq<Node>)
    requires NodesReadBack(d, formatCoord, parseDouble, nodes)
    requires |nodes| < |lines|
    requires forall i :: 0 <= i < |nodes| ==> lines[1 + i] == AbstractMeshConverter.FormatNode(d, formatCoord, nodes[i])
    ensures PointsRead(lines, d == ThreeD, parseDouble, |nodes|)
            == Ok(NodesAsRead(d, nodes))
  {
    var dec := DecodeLines(lines, d == ThreeD, parseDouble);
    var ps := NodesAsRead(d, nodes);
    forall k | 0 <= k < |nodes|
      ensures dec[k + 1] == Ok(ps[k])
    {
      assert dec[k + 1] == PointOf(lines[1 + k], d == ThreeD, parseDouble);
      NodeLineReadsBack(d, formatCoord, parseDouble, nodes[k]);
    }
    PointsDecodedAll(dec, |nodes|, ps);
  }

  /** The lines after the n nodes of a file laid out as the converter writes it read back,
      under the setting of its dimension, as its main elements and then its boundary
      elements. */
  lemma ConverterFacesReadBack(d: Dimension, lines: seq<string>, n: nat, mains: seq<seq<int>>, boundary: seq<seq<int>>)
    requires AbstractMeshConverter.OfWidth(mains, AbstractMeshConverter.NodesPerMainElement(d)) && AllElementsInt32(mains)
    requires AbstractMeshConverter.OfWidth(boundary, AbstractMeshConverter.NodesPerBoundaryElement(d)) && AllElementsInt32(boundary)
    requires |lines| == 1 + n + |mains| + |boundary|
    requires forall i :: 0 <= i < |mains| ==> lines[1 + n + i] == AbstractMeshConverter.FormatMainElement(d, mains[i])
    requires forall i :: 0 <= i < |boundary| ==>
               lines[1 + n + |mains| + i] == AbstractMeshConverter.FormatBoundaryElement(d, boundary[i])
    ensures FacesRead(lines[n + 1..], d == ThreeD) == Ok(ExpectedFaces(d, mains, boundary))
  {
    var tail := lines[n + 1..];
    var fs := ExpectedFaces(d, mains, boundary);
    forall i | 0 <= i < |tail|
      ensures FaceOf(SplitSpace(tail[i]), d == ThreeD) == Ok(fs[i])
    {
      assert tail[i] == lines[1 + n + i];
      if i < |mains| {
        ConverterMainLineReadsBack(d, tail, mains, boundary, i);
      } else {
        assert 1 + n + i == 1 + n + |mains| + (i - |mains|);
        ConverterBoundaryLineReadsBack(d, tail, mains, boundary, i);
      }
    }
    FacesReadFromEach(tail, d == ThreeD, fs);
  }

  /** Element lines that each read as the matching face read as those faces. */
  lemma FacesReadFromEach(faceLines: seq<string>, is3DSetting: bool, fs: seq<FaceLine>)
    requires |faceLines| == |fs|
    requires forall i :: 0 <= i < |faceLines| ==> FaceOf(SplitSpace(faceLines[i]), is3DSetting) == Ok(fs[i])
    ensures FacesRead(faceLines, is3DSetting) == Ok(fs)
  {
    var fields := SplitLines(faceLines);
    FacesOfEach(fields, is3DSetting);
    assert FacesOf(fields, is3DSetting).value == fs;
  }

  /** Element line i, a main element, reads back as face i. */
  lemma ConverterMainLineReadsBack(d: Dimension, tail: seq<string>, mains: seq<seq<int>>, boundary: seq<seq<int>>, i: int)
    requires AbstractMeshConverter.OfWidth(mains, AbstractMeshConverter.NodesPerMainElement(d)) && AllElementsInt32(mains)
    requires AbstractMeshConverter.OfWidth(boundary, AbstractMeshConverter.NodesPerBoundaryElement(d)) && AllElementsInt32(boundary)
    requires 0 <= i < |mains| && i < |tail|
    requires tail[i] == AbstractMeshConverter.FormatMainElement(d, mains[i])
    ensures FaceOf(SplitSpace(tail[i]), d == ThreeD) == Ok(ExpectedFaces(d, mains, boundary)[i])
  {
    MainLineReadsBack(d, mains[i]);
  }

  /** Element line i, a boundary element, reads back as face i. */
  lemma ConverterBoundaryLineReadsBack(d: Dimension, tail: seq<string>, mains: seq<seq<int>>, boundary: seq<seq<int>>, i: int)
    requires AbstractMeshConverter.OfWidth(mains, AbstractMeshConverter.NodesPerMainElement(d)) && AllElementsInt32(mains)
    requires AbstractMeshConverter.OfWidth(boundary, AbstractMeshConverter.NodesPerBoundaryElement(d)) && AllElementsInt32(boundary)
    requires |mains| <= i < |mains| + |boundary| && i < |tail|
    requires tail[i] == AbstractMeshConverter.FormatBoundaryElement(d, boundary[i - |mains|])
    ensures FaceOf(SplitSpace(tail[i]), d == ThreeD) == Ok(ExpectedFaces(d, mains, boundary)[i])
  {
    var b := i - |mains|;
    var e := boundary[b];
    assert |e| == AbstractMeshConverter.NodesPerBoundaryElement(d) && AllInt32(e);
    BoundaryLineReadsBack(d, e);
    var fs := ExpectedFaces(d, mains, boundary);
    assert i == |mains| + b;
    assert fs[|mains| + b] == BoundaryFace(d, e);
  }

  lemma MainLineReadsBack(d: Dimension, e: seq<int>)
    requires |e| == AbstractMeshConverter.NodesPerMainElement(d) && AllInt32(e)
    ensures FaceOf(SplitSpace(AbstractMeshConverter.FormatMainElement(d, e)), d == ThreeD) == Ok(MainFace(d, e))
  {
    if d == ThreeD {
      TetraLineReadsBack(e);
    } else {
      TriangleLineReadsBack(e);
    }
  }

  lemma BoundaryLineReadsBack(d: Dimension, e: seq<int>)
    requires |e| == AbstractMeshConverter.NodesPerBoundaryElement(d) && AllInt32(e)
    ensures FaceOf(SplitSpace(AbstractMeshConverter.FormatBoundaryElement(d, e)), d == ThreeD) == Ok(BoundaryFace(d, e))
  {
    if d == ThreeD {
      SurfaceLineReadsBack(e);
    } else {
      EdgeLineReadsBack(e);
    }
  }

  /** Writer/reader agreement: an MTC file the converter writes is read, under the setting of
      its own dimension, into the meshes of its nodes and its elements, with the element count
      of the header deciding the reduction. */
  lemma ConverterOutputReadsBack(d: Dimension, formatCoord: real -> string, parseDouble: string -> Option<real>,
                                 nodes: seq<Node>, mains: seq<seq<int>>, boundary: seq<seq<int>>)
    requires NodesReadBack(d, formatCoord, parseDouble, nodes)
    requires IsInt32(|nodes|) && IsInt32(|mains| + |boundary|)
    requires AbstractMeshConverter.OfWidth(mains, AbstractMeshConverter.NodesPerMainElement(d)) && AllElementsInt32(mains)
    requires AbstractMeshConverter.OfWidth(boundary, AbstractMeshConverter.NodesPerBoundaryElement(d)) && AllElementsInt32(boundary)
    ensures ParsedFile(AbstractMeshConverter.MtcLines(d, formatCoord, nodes, mains, boundary), d == ThreeD, parseDouble)
            == Ok(AddTexCoordsTo(ApplyFaces(AddPoints(Initial(|mains| + |boundary|),
                                                      NodesAsRead(d, nodes)),
                                            ExpectedFaces(d, mains, boundary))))
  {
    var lines := AbstractMeshConverter.MtcLines(d, formatCoord, nodes, mains, boundary);
    var h := Header(|nodes|, DimensionValue(d), |mains| + |boundary|);
    var ps, fs := NodesAsRead(d, nodes), ExpectedFaces(d, mains, boundary);
    assert HeaderOf(lines) == Ok(h) by {
      ConverterHeaderReadsBack(d, formatCoord, nodes, mains, boundary);
    }
    assert PointsRead(lines, h.dimension == 3, parseDouble, h.numberOfPoints) == Ok(ps) by {
      ConverterNodeLinesReadBack(d, formatCoord, parseDouble, nodes, mains, boundary);
      assert (h.dimension == 3) == (d == ThreeD);
    }
    assert FacesRead(lines[h.numberOfPoints + 1..], d == ThreeD) == Ok(fs) by {
      ConverterElementLinesReadBack(d, formatCoord, nodes, mains, boundary);
    }
    ParsedFileFrom(lines, d == ThreeD, parseDouble, h, ps, fs);
    assert Initial(h.nbTetra) == Initial(|mains| + |boundary|);
  }

  /** The first line of a converted file reads back as its node count, dimension and element
      count. */
  lemma ConverterHeaderReadsBack(d: Dimension, formatCoord: real -> string,
                                 nodes: seq<Node>, mains: seq<seq<int>>, boundary: seq<seq<int>>)
    requires IsInt32(|nodes|) && IsInt32(|mains| + |boundary|)
    requires AbstractMeshConverter.OfWidth(mains, AbstractMeshConverter.NodesPerMainElement(d))
    requires AbstractMeshConverter.OfWidth(boundary, AbstractMeshConverter.NodesPerBoundaryElement(d))
    ensures HeaderOf(AbstractMeshConverter.MtcLines(d, formatCoord, nodes, mains, boundary))
            == Ok(Header(|nodes|, DimensionValue(d), |mains| + |boundary|))
  {
    var lines := AbstractMeshConverter.MtcLines(d, formatCoord, nodes, mains, boundary);
    assert lines[0] == AbstractMeshConverter.HeaderLine(|nodes|, DimensionValue(d), |mains| + |boundary|);
    HeaderOfConverterHeader(|nodes|, DimensionValue(d), |mains| + |boundary|, lines);
  }

  /** The node lines of a converted file read back as its nodes. */
  lemma ConverterNodeLinesReadBack(d: Dimension, formatCoord: real -> string, parseDouble: string -> Option<real>,
                                   nodes: seq<Node>, mains: seq<seq<int>>, boundary: seq<seq<int>>)
    requires NodesReadBack(d, formatCoord, parseDouble, nodes)
    requires AbstractMeshConverter.OfWidth(mains, AbstractMeshConverter.NodesPerMainElement(d))
    requires AbstractMeshConverter.OfWidth(boundary, AbstractMeshConverter.NodesPerBoundaryElement(d))
    ensures PointsRead(AbstractMeshConverter.MtcLines(d, formatCoord, nodes, mains, boundary), d == ThreeD, parseDouble, |nodes|)
            == Ok(NodesAsRead(d, nodes))
  {
    AbstractMeshConverter.MtcLinesLayout(d, formatCoord, nodes, mains, boundary);
    ConverterPointsReadBack(d, formatCoord, parseDouble, AbstractMeshConverter.MtcLines(d, formatCoord, nodes, mains, boundary), nodes);
  }

  /** The element lines of a converted file read back as its main elements and then its
      boundary elements. */
  lemma ConverterElementLinesReadBack(d: Dimension, formatCoord: real -> string,
                                      nodes: seq<Node>, mains: seq<seq<int>>, boundary: seq<seq<int>>)
    requires AbstractMeshConverter.OfWidth(mains, AbstractMeshConverter.NodesPerMainElement(d)) && AllElementsInt32(mains)
    requires AbstractMeshConverter.OfWidth(boundary, AbstractMeshConverter.NodesPerBoundaryElement(d)) && AllElementsInt32(boundary)
    ensures var lines := AbstractMeshConverter.MtcLines(d, formatCoord, nodes, mains, boundary);
            |nodes| < |lines| && FacesRead(lines[|nodes| + 1..], d == ThreeD) == Ok(ExpectedFaces(d, mains, boundary))
  {
    AbstractMeshConverter.MtcLinesLayout(d, formatCoord, nodes, mains, boundary);
    ConverterFacesReadBack(d, AbstractMeshConverter.MtcLines(d, formatCoord, nodes, mains, boundary), |nodes|, mains, boundary);
  }

  /** parseFile2TriangleMesh from the readings of its three parts. */
  lemma ParsedFileFrom(lines: seq<string>, is3DSetting: bool, parseDouble: string -> Option<real>,
                       h: Header, ps: seq<Node>, fs: seq<FaceLine>)
    requires HeaderOf(lines) == Ok(h) && h.numberOfPoints >= 0
    requires PointsRead(lines, h.dimension == 3, parseDouble, h.numberOfPoints) == Ok(ps)
    requires FacesRead(lines[h.numberOfPoints + 1..], is3DSetting) == Ok(fs)
    ensures ParsedFile(lines, is3DSetting, parseDouble) == Ok(AddTexCoordsTo(ApplyFaces(AddPoints(Initial(h.nbTetra), ps), fs)))
  {
  }
}
