/** The string helpers of UtilityClass used around the converter: the .msh to .t renaming
    (with the commons-io FilenameUtils rules it relies on), the filter that hides harmless
    warning lines, the dimension token of an MTC header, and buildMessage. */
module UtilityClass {
  import opened Outcomes
  import opened MeshTypes
  import opened JavaText
  import AbstractMeshConverter

  // ---------- FilenameUtils ----------

  predicate IsSeparator(c: char) {
    c == '/' || c == '\\'
  }

  /** FilenameUtils.indexOfLastSeparator: the last '/' or '\', or -1. */
  function IndexOfLastSeparator(name: string): (r: int)
    ensures -1 <= r < |name|
    ensures r >= 0 ==> IsSeparator(name[r])
    ensures forall i :: r < i < |name| ==> !IsSeparator(name[i])
  {
    var slash, backslash := LastIndexOf(name, '/'), LastIndexOf(name, '\\');
    if slash > backslash then slash else backslash
  }

  /** FilenameUtils.indexOfExtension: the last '.', or -1 when there is none or a separator
      comes after it. */
  function IndexOfExtension(name: string): (r: int)
    ensures -1 <= r < |name|
    ensures r >= 0 ==> name[r] == '.' && forall i :: r < i < |name| ==> name[i] != '.' && !IsSeparator(name[i])
    ensures r == -1 ==> forall i :: IndexOfLastSeparator(name) < i < |name| ==> name[i] != '.'
  {
    var dot := LastIndexOf(name, '.');
    if IndexOfLastSeparator(name) > dot then -1 else dot
  }

  /** FilenameUtils.getExtension: the text after the extension dot, or "". */
  function Extension(name: string): string {
    var k := IndexOfExtension(name);
    if k == -1 then "" else name[k + 1..]
  }

  /** FilenameUtils.isExtension(name, extension) for a non-empty extension. */
  predicate IsExtension(name: string, extension: string) {
    Extension(name) == extension
  }

  /** FilenameUtils.removeExtension: the name up to its extension dot. */
  function RemoveExtension(name: string): string {
    var k := IndexOfExtension(name);
    if k == -1 then name else name[..k]
  }

  /** A name has the extension "msh" exactly when it ends with ".msh", and removing the
      extension then drops those four characters. */
  lemma MshExtensionIsSuffix(name: string)
    ensures IsExtension(name, "msh") <==> EndsWith(name, ".msh")
    ensures IsExtension(name, "msh") ==> RemoveExtension(name) == name[..|name| - 4]
  {
    var n := |name|;
    if EndsWith(name, ".msh") {
      assert name[n - 4] == '.' && name[n - 3] == 'm' && name[n - 2] == 's' && name[n - 1] == 'h';
      var dot := LastIndexOf(name, '.');
      assert dot == n - 4;
      assert IndexOfLastSeparator(name) < n - 4;
      assert IndexOfExtension(name) == n - 4;
      assert Extension(name) == name[n - 3..];
    }
  }

  /** buildTExtentionName on File.getName(): "x.msh" becomes "x.t"; any other name is kept. */
  function BuildTExtensionName(name: string): (r: string)
    ensures EndsWith(name, ".msh") ==> r == name[..|name| - 4] + ".t"
    ensures !EndsWith(name, ".msh") ==> r == name
  {
    MshExtensionIsSuffix(name);
    if IsExtension(name, "msh") then RemoveExtension(name) + ".t" else name
  }

  /** Renaming an already renamed file changes nothing. */
  lemma BuildTExtensionNameIdempotent(name: string)
    ensures BuildTExtensionName(BuildTExtensionName(name)) == BuildTExtensionName(name)
  {
    var r := BuildTExtensionName(name);
    if EndsWith(name, ".msh") {
      assert r[|r| - 1] == 't';
      assert !EndsWith(r, ".msh");
    }
  }

  // ---------- shouldDisplayError ----------

  /** The NumPy deprecation notices that are never shown. */
  const NumpyNotices: seq<string> := [
    "DeprecationWarning",
    "Arrays of 2-dimensional vectors are deprecated",
    "in1d is deprecated",
    "Use arrays of 3-dimensional vectors instead",
    "Use `np.isin` instead"
  ]

  /** The other warning categories that are not shown. */
  const MinorWarnings: seq<string> := ["FutureWarning", "UserWarning", "RuntimeWarning"]

  /** Every phrase that hides a line. */
  const HiddenPhrases: seq<string> := NumpyNotices + MinorWarnings

  /** shouldDisplayError: the NumPy notices are filtered first, then the minor warnings; a
      line is shown exactly when it contains none of the eight phrases. */
  function ShouldDisplayError(line: string): (r: bool)
    ensures r <==> forall i :: 0 <= i < |HiddenPhrases| ==> !Contains(line, HiddenPhrases[i])
  {
    assert forall i :: 0 <= i < |NumpyNotices| ==> HiddenPhrases[i] == NumpyNotices[i];
    assert forall i :: 0 <= i < |MinorWarnings| ==> HiddenPhrases[|NumpyNotices| + i] == MinorWarnings[i];
    if Contains(line, NumpyNotices[0]) || Contains(line, NumpyNotices[1]) || Contains(line, NumpyNotices[2])
       || Contains(line, NumpyNotices[3]) || Contains(line, NumpyNotices[4])
    then false
    else !Contains(line, MinorWarnings[0]) && !Contains(line, MinorWarnings[1]) && !Contains(line, MinorWarnings[2])
  }

  /** A shown line has none of the eight phrases at any position; a hidden one has one. */
  lemma ShouldDisplayErrorOccurrences(line: string)
    ensures ShouldDisplayError(line) <==> forall i, k :: 0 <= i < |HiddenPhrases| ==> !OccursAt(line, HiddenPhrases[i], k)
  {
    forall i | 0 <= i < |HiddenPhrases| {
      ContainsIff(line, HiddenPhrases[i]);
    }
  }

  // ---------- detectDimensionImportCase ----------

  /** detectDimensionImportCase on the lines of an MTC file: the integer value of the second
      whitespace token of the trimmed first line. An empty file is a NullPointerException, a
      first line with fewer than two tokens an ArrayIndexOutOfBoundsException. */
  function DetectDimensionImportCase(lines: seq<string>): (r: Result<int>)
    ensures r.Ok? <==> lines != [] && |Tokens(Trim(lines[0]))| >= 2 && ParseInt(Tokens(Trim(lines[0]))[1]).Some?
    ensures r.Ok? ==> r.value == ParseInt(Tokens(Trim(lines[0]))[1]).value
  {
    if lines == [] then Err(MissingLine(0))
    else
      SplitWhitespaceOfTrimmed(Trim(lines[0]));
      var parts := SplitWhitespace(Trim(lines[0]));
      if |parts| < 2 then Err(MissingToken(1))
      else match ParseInt(parts[1])
        case None => Err(NotAnInteger(parts[1]))
        case Some(v) => Ok(v)
  }

  /** The header line is four words joined by single spaces, and String.trim keeps it. */
  lemma HeaderLineWords(nodeCount: int, dimension: int, elementCount: int)
    ensures var words := [IntToString(nodeCount), IntToString(dimension), IntToString(elementCount), IntToString(dimension + 1)];
            && AbstractMeshConverter.HeaderLine(nodeCount, dimension, elementCount) == Unwords(words)
            && (forall i :: 0 <= i < 4 ==> IsWord(words[i]) && ' ' !in words[i])
            && IsTrimmed(AbstractMeshConverter.HeaderLine(nodeCount, dimension, elementCount))
  {
    var a, b, c, d := IntToString(nodeCount), IntToString(dimension), IntToString(elementCount), IntToString(dimension + 1);
    UnwordsFour(a, b, c, d);
    IntToStringIsWord(nodeCount);
    IntToStringIsWord(dimension);
    IntToStringIsWord(elementCount);
    IntToStringIsWord(dimension + 1);
    IntToStringEnds(nodeCount);
    IntToStringEnds(dimension + 1);
    var h := AbstractMeshConverter.HeaderLine(nodeCount, dimension, elementCount);
    assert h[0] == a[0] && h[|h| - 1] == d[|d| - 1];
  }

  /** What the converter writes, detectDimensionImportCase reads back: the dimension. */
  lemma DetectDimensionOfConverterOutput(d: Dimension, formatCoord: real -> string, nodes: seq<Node>, mains: seq<seq<int>>, boundary: seq<seq<int>>)
    requires AbstractMeshConverter.OfWidth(mains, AbstractMeshConverter.NodesPerMainElement(d))
    requires AbstractMeshConverter.OfWidth(boundary, AbstractMeshConverter.NodesPerBoundaryElement(d))
    ensures DetectDimensionImportCase(AbstractMeshConverter.MtcLines(d, formatCoord, nodes, mains, boundary)) == Ok(DimensionValue(d))
  {
    var lines := AbstractMeshConverter.MtcLines(d, formatCoord, nodes, mains, boundary);
    assert lines != [] && lines[0] == AbstractMeshConverter.HeaderLine(|nodes|, DimensionValue(d), |mains| + |boundary|);
    DimensionOfHeaderLine(lines, |nodes|, DimensionValue(d), |mains| + |boundary|);
  }

  /** A file whose first line is a converter header "n dim e dim+1" has dimension dim. */
  lemma DimensionOfHeaderLine(lines: seq<string>, nodeCount: int, dim: int, elementCount: int)
    requires dim == 2 || dim == 3
    requires lines != [] && lines[0] == AbstractMeshConverter.HeaderLine(nodeCount, dim, elementCount)
    ensures DetectDimensionImportCase(lines) == Ok(dim)
  {
    var header := lines[0];
    HeaderLineWords(nodeCount, dim, elementCount);
    var words := [IntToString(nodeCount), IntToString(dim), IntToString(elementCount), IntToString(dim + 1)];
    TokensOfUnwords(words, false);
    assert Trim(header) == header;
    assert Unwords(words) + "" == Unwords(words);
    assert Tokens(header) == words;
    ParseIntOfIntToString(dim);
  }

  // ---------- buildMessage ----------

  /** buildMessage(message, args...): the message itself when args is null or empty,
      otherwise String.format(message, args), which is the parameter format. */
  function BuildMessage<A>(message: string, args: Option<seq<A>>, format: (string, seq<A>) -> string): (r: string)
    ensures args.None? || |args.value| == 0 ==> r == message
    ensures args.Some? && |args.value| > 0 ==> r == format(message, args.value)
  {
    if args.None? || |args.value| == 0 then message else format(message, args.value)
  }
}
