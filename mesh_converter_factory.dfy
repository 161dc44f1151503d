/** MeshConverterFactory: the converter for a dimension, the scan that detects the
    dimension of a GMSH file, and the one-call conversion that ties them together. */
module MeshConverterFactory {
  import opened Outcomes
  import opened MeshTypes
  import opened JavaText
  import AbstractMeshConverter
  import UtilityClass

  // ---------- create ----------

  /** The switch of create: 2 and 3 select a converter, any other value is an
      IllegalArgumentException. */
  function DimensionFor(dimension: int): (r: Result<Dimension>)
    ensures r.Ok? <==> dimension == 2 || dimension == 3
    ensures r.Ok? ==> DimensionValue(r.value) == dimension
    ensures r.Err? ==> r.error == UnsupportedDimension(dimension)
  {
    match dimension
    case 2 => Ok(TwoD)
    case 3 => Ok(ThreeD)
    case _ => Err(UnsupportedDimension(dimension))
  }

  /** create: a fresh converter of the requested dimension, reading integers with
      Integer.parseInt. */
  method Create(dimension: int, parseCoord: string -> Option<real>, formatCoord: real -> string)
    returns (r: Result<AbstractMeshConverter.MeshConverter>)
    ensures r.Ok? <==> dimension == 2 || dimension == 3
    ensures r.Err? ==> r.error == UnsupportedDimension(dimension)
    ensures r.Ok? ==> fresh(r.value) && fresh(r.value.mainElements) && fresh(r.value.boundaryElements)
    ensures r.Ok? ==> r.value.Valid() && r.value.lines == []
    ensures r.Ok? ==> r.value.nodesStart == 0 && r.value.nodesEnd == 0 && r.value.elementsStart == 0 && r.value.elementsEnd == 0
    ensures r.Ok? ==> DimensionValue(r.value.dim) == dimension && r.value.parseInt == ParseInt
    ensures r.Ok? ==> r.value.parseCoord == parseCoord && r.value.formatCoord == formatCoord
  {
    var d := DimensionFor(dimension);
    if d.Err? {
      return Err(d.error);
    }
    var converter := new AbstractMeshConverter.MeshConverter(d.value, ParseInt, parseCoord, formatCoord);
    return Ok(converter);
  }

  // ---------- detectDimension ----------

  /** A line as detectDimension compares it: without '\r' characters, then trimmed. */
  function Cleaned(line: string): string {
    Trim(RemoveChar(line, '\r'))
  }

  /** Every line cleaned. */
  function CleanAll(lines: seq<string>): (c: seq<string>)
    ensures |c| == |lines|
  {
    seq(|lines|, k requires 0 <= k < |lines| => Cleaned(lines[k]))
  }

  /** Cleaned line s is the first "$Nodes" line. */
  predicate IsFirstNodesMarker(c: seq<string>, s: int) {
    && 0 <= s < |c|
    && c[s] == "$Nodes"
    && forall i :: 0 <= i < s ==> c[i] != "$Nodes"
  }

  /** Cleaned line j comes after line s with no "$EndNodes" line from s + 1 up to j. */
  predicate InNodesSection(c: seq<string>, s: int, j: int) {
    && 0 <= s < j < |c|
    && forall k :: s < k <= j ==> c[k] != "$EndNodes"
  }

  /** A cleaned, non-empty line of three whitespace tokens whose third parses to a number
      that is not zero. */
  predicate HasNonzeroZ(t: string, parseDouble: string -> Option<real>) {
    var parts := SplitWhitespace(t);
    && t != ""
    && |parts| == 3
    && parseDouble(parts[2]).Some?
    && parseDouble(parts[2]).value != 0.0
  }

  /** Cleaned line k is neither "$EndNodes" nor a line with a nonzero z: the scan goes past it. */
  predicate ScanPasses(c: seq<string>, k: int, parseDouble: string -> Option<real>)
    requires 0 <= k < |c|
  {
    c[k] != "$EndNodes" && !HasNonzeroZ(c[k], parseDouble)
  }

  /** Some line of the first Nodes section has a nonzero z. */
  ghost predicate HasThreeDNodeIn(c: seq<string>, parseDouble: string -> Option<real>) {
    exists s, j :: IsFirstNodesMarker(c, s) && InNodesSection(c, s, j) && HasNonzeroZ(c[j], parseDouble)
  }

  ghost predicate HasThreeDNode(lines: seq<string>, parseDouble: string -> Option<real>) {
    HasThreeDNodeIn(CleanAll(lines), parseDouble)
  }

  /** Without a "$Nodes" line there is no Nodes section. */
  lemma NoThreeDNodeWithoutMarker(c: seq<string>, parseDouble: string -> Option<real>)
    requires forall k :: 0 <= k < |c| ==> c[k] != "$Nodes"
    ensures !HasThreeDNodeIn(c, parseDouble)
  {
  }

  /** The scan of the Nodes section after marker s that reached line i without a nonzero z,
      at the end of the file or at "$EndNodes", has seen every line of the section. */
  lemma NoThreeDNodeInSection(c: seq<string>, parseDouble: string -> Option<real>, s: int, i: int)
    requires IsFirstNodesMarker(c, s) && s < i <= |c|
    requires forall k :: s < k < i ==> ScanPasses(c, k, parseDouble)
    requires i == |c| || c[i] == "$EndNodes"
    ensures !HasThreeDNodeIn(c, parseDouble)
  {
    forall s', j | IsFirstNodesMarker(c, s') && InNodesSection(c, s', j)
      ensures !HasNonzeroZ(c[j], parseDouble)
    {
      assert s' == s;
      assert j < i;
      assert ScanPasses(c, j, parseDouble);
    }
  }

  /** The scan of detectDimension over the cleaned lines: find the first "$Nodes" line, then
      walk the section up to "$EndNodes"; 3 at the first line of three tokens whose third
      parses to a nonzero number, otherwise 2. A third token that does not parse is skipped. */
  method ScanNodeSection(c: seq<string>, parseDouble: string -> Option<real>) returns (d: int)
    ensures d == 2 || d == 3
    ensures d == 3 <==> HasThreeDNodeIn(c, parseDouble)
  {
    var i := 0;
    while i < |c|
      invariant 0 <= i <= |c|
      invariant forall k :: 0 <= k < i ==> c[k] != "$Nodes"
    {
      if c[i] == "$Nodes" {
        break;
      }
      i := i + 1;
    }
    if i == |c| {
      NoThreeDNodeWithoutMarker(c, parseDouble);
      return 2;
    }
    ghost var s := i;
    assert IsFirstNodesMarker(c, s);
    i := i + 1;
    while i < |c|
      invariant s < i <= |c|
      invariant forall k :: s < k < i ==> ScanPasses(c, k, parseDouble)
    {
      var line := c[i];
      if line == "$EndNodes" {
        break;
      }
      if line != "" {
        var parts := SplitWhitespace(line);
        if |parts| == 3 {
          var z := parseDouble(parts[2]);
          if z.Some? && z.value != 0.0 {
            assert forall k :: s < k < i ==> c[k] != "$EndNodes" by {
              forall k | s < k < i ensures c[k] != "$EndNodes" {
                assert ScanPasses(c, k, parseDouble);
              }
            }
            assert InNodesSection(c, s, i);
            assert HasNonzeroZ(c[i], parseDouble);
            return 3;
          }
        }
      }
      assert ScanPasses(c, i, parseDouble);
      i := i + 1;
    }
    NoThreeDNodeInSection(c, parseDouble, s, i);
    return 2;
  }

  /** detectDimension: every line is compared as line.replace("\r", "").trim(); cleaning is
      pure, so the lines are cleaned up front and then scanned. */
  method DetectDimension(lines: seq<string>, parseDouble: string -> Option<real>) returns (d: int)
    ensures d == 2 || d == 3
    ensures d == 3 <==> HasThreeDNode(lines, parseDouble)
  {
    var c := CleanAll(lines);
    d := ScanNodeSection(c, parseDouble);
  }

  // ---------- convert ----------

  /** What convert produces: the output file name and the lines written to it. */
  datatype Conversion = Conversion(outputName: string, text: seq<string>)

  /** The dimension convert works in: the preset one when set, otherwise the detected one. */
  ghost function ChosenDimension(presetDimension: Option<int>, rawLines: seq<string>, parseCoord: string -> Option<real>): int {
    if presetDimension.Some? then presetDimension.value
    else if HasThreeDNode(rawLines, parseCoord) then 3 else 2
  }

  /** convert: the preset dimension when one is set (presetDimension), otherwise the
      detected one; then the converter of that dimension, the output name from
      buildTExtentionName, and the conversion. It succeeds exactly when the dimension is
      supported and the conversion of the lines, from section markers at 0, does; the text is
      then the MTC layout of what they parse to. */
  method Convert(presetDimension: Option<int>, fileName: string, rawLines: seq<string>,
                 parseCoord: string -> Option<real>, formatCoord: real -> string)
    returns (r: Result<Conversion>)
    ensures var d := DimensionFor(ChosenDimension(presetDimension, rawLines, parseCoord));
            r.Ok? <==> d.Ok? && AbstractMeshConverter.ConversionSucceeds(d.value, ParseInt, parseCoord, rawLines, 0, 0, 0, 0)
    ensures var d := DimensionFor(ChosenDimension(presetDimension, rawLines, parseCoord));
            r.Ok? ==> d.Ok? && AbstractMeshConverter.ConvertsTo(d.value, ParseInt, parseCoord, formatCoord, rawLines, 0, 0, 0, 0, r.value.text)
    ensures presetDimension.Some? && presetDimension.value != 2 && presetDimension.value != 3 ==>
              r == Err(UnsupportedDimension(presetDimension.value))
    ensures r.Ok? ==> r.value.outputName == UtilityClass.BuildTExtensionName(fileName)
    ensures r.Ok? ==> UtilityClass.DetectDimensionImportCase(r.value.text) == Ok(ChosenDimension(presetDimension, rawLines, parseCoord))
  {
    var dimension: int;
    if presetDimension.Some? {
      dimension := presetDimension.value;
    } else {
      dimension := DetectDimension(rawLines, parseCoord);
    }
    assert dimension == ChosenDimension(presetDimension, rawLines, parseCoord);
    r := ConvertIn(dimension, fileName, rawLines, parseCoord, formatCoord);
  }

  /** The rest of convert once the dimension is chosen: the converter of that dimension, the
      output name from buildTExtentionName, and the conversion, which succeeds exactly when
      the dimension is supported and the conversion of the lines does. */
  method ConvertIn(dimension: int, fileName: string, rawLines: seq<string>,
                   parseCoord: string -> Option<real>, formatCoord: real -> string)
    returns (r: Result<Conversion>)
    ensures var d := DimensionFor(dimension);
            r.Ok? <==> d.Ok? && AbstractMeshConverter.ConversionSucceeds(d.value, ParseInt, parseCoord, rawLines, 0, 0, 0, 0)
    ensures var d := DimensionFor(dimension);
            r.Ok? ==> d.Ok? && AbstractMeshConverter.ConvertsTo(d.value, ParseInt, parseCoord, formatCoord, rawLines, 0, 0, 0, 0, r.value.text)
    ensures dimension != 2 && dimension != 3 ==> r == Err(UnsupportedDimension(dimension))
    ensures r.Ok? ==> r.value.outputName == UtilityClass.BuildTExtensionName(fileName)
    ensures r.Ok? ==> UtilityClass.DetectDimensionImportCase(r.value.text) == Ok(dimension)
  {
    var created := Create(dimension, parseCoord, formatCoord);
    if created.Err? {
      return Err(created.error);
    }
    var converter := created.value;
    var outputName := UtilityClass.BuildTExtensionName(fileName);
    var converted := converter.Convert(rawLines);
    if converted.Err? {
      return Err(converted.error);
    }
    UtilityClass.DetectDimensionOfConverterOutput(converter.dim, formatCoord, converter.nodes[..],
      converter.mainElements[..], converter.boundaryElements[..]);
    return Ok(Conversion(outputName, converted.value));
  }
}
