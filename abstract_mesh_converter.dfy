/** The GMSH v4 to MTC conversion pipeline shared by both dimensions: load and locate the
    sections, scan and parse the node blocks, scan and parse the element blocks, detect the
    boundary, drop unreferenced nodes and renumber, and lay out the output lines.
    Each stage is specified by functions of the lines it reads; the class runs the stages
    over its fields as the source does. */
module AbstractMeshConverter {
  import opened Outcomes
  import opened MeshTypes
  import opened JavaText
  import BoundaryCounting
  import MeshConverter2D
  import MeshConverter3D

  // ---------- the dimension-specific hooks ----------

  function NodesPerMainElement(d: Dimension): nat {
    if d == TwoD then MeshConverter2D.NodesPerMainElement else MeshConverter3D.NodesPerMainElement
  }

  function NodesPerBoundaryElement(d: Dimension): nat {
    if d == TwoD then MeshConverter2D.NodesPerBoundaryElement else MeshConverter3D.NodesPerBoundaryElement
  }

  function ElementType(d: Dimension): int {
    if d == TwoD then MeshConverter2D.ElementType else MeshConverter3D.ElementType
  }

  function FormatNode(d: Dimension, formatCoord: real -> string, n: Node): string {
    if d == TwoD then MeshConverter2D.FormatNode(formatCoord, n) else MeshConverter3D.FormatNode(formatCoord, n)
  }

  function FormatMainElement(d: Dimension, e: seq<int>): string
    requires |e| == NodesPerMainElement(d)
  {
    if d == TwoD then MeshConverter2D.FormatMainElement(e) else MeshConverter3D.FormatMainElement(e)
  }

  function FormatBoundaryElement(d: Dimension, e: seq<int>): string
    requires |e| == NodesPerBoundaryElement(d)
  {
    if d == TwoD then MeshConverter2D.FormatBoundaryElement(e) else MeshConverter3D.FormatBoundaryElement(e)
  }

  predicate OfWidth(elems: seq<seq<int>>, width: nat) {
    forall k :: 0 <= k < |elems| ==> |elems[k]| == width
  }

  /** The boundary property of either dimension: edges of triangles or faces of tetrahedra
      whose key occurs exactly once. */
  ghost predicate IsBoundaryFor(d: Dimension, boundary: seq<seq<int>>, mains: seq<seq<int>>)
    requires OfWidth(mains, NodesPerMainElement(d))
  {
    if d == TwoD then BoundaryCounting.IsBoundaryOf(boundary, MeshConverter2D.AllEdges(mains), MeshConverter2D.KeyOf)
    else BoundaryCounting.IsBoundaryOf(boundary, MeshConverter3D.AllFaces(mains), MeshConverter3D.KeyOf)
  }

  // ---------- step 1: load and locate sections ----------

  /** String.trim applied to every line, in order. */
  function TrimAll(raw: seq<string>): (r: seq<string>)
    ensures |r| == |raw|
  {
    if raw == [] then [] else [Trim(raw[0])] + TrimAll(raw[1..])
  }

  lemma {:induction false} TrimAllAt(raw: seq<string>, i: int)
    requires 0 <= i < |raw|
    ensures TrimAll(raw)[i] == Trim(raw[i])
  {
    var rest := raw[1..];
    assert TrimAll(raw) == [Trim(raw[0])] + TrimAll(rest);
    if i > 0 {
      TrimAllAt(rest, i - 1);
      assert rest[i - 1] == raw[i];
    }
  }

  /** Every loaded line is trimmed, so loading is idempotent. */
  lemma TrimAllTrimmed(raw: seq<string>)
    ensures forall i :: 0 <= i < |raw| ==> IsTrimmed(TrimAll(raw)[i])
    ensures TrimAll(TrimAll(raw)) == TrimAll(raw)
  {
    var t := TrimAll(raw);
    forall i | 0 <= i < |raw| ensures IsTrimmed(t[i]) && TrimAll(t)[i] == t[i] {
      TrimAllAt(raw, i);
      TrimAllAt(t, i);
    }
  }

  /** The index of the last of the first n lines equal to the marker, or `absent` when there
      is none (the switch assigns on every match, so the last one wins, and a field keeps
      its value when its marker never appears). */
  function LastIndexBelow(lines: seq<string>, marker: string, absent: int, n: nat): (r: int)
    requires n <= |lines|
    ensures r == absent || 0 <= r < n
  {
    if n == 0 then absent
    else if lines[n - 1] == marker then n - 1
    else LastIndexBelow(lines, marker, absent, n - 1)
  }

  /** The index of the last line equal to the marker, or `absent`. */
  function LastIndexOr(lines: seq<string>, marker: string, absent: int): (r: int)
    ensures r == absent || 0 <= r < |lines|
  {
    LastIndexBelow(lines, marker, absent, |lines|)
  }

  /** The trimmed lines and the four marker positions, defaulting to the given ones. */
  method LoadLines(rawLines: seq<string>, nodesStart: nat, nodesEnd: nat, elementsStart: nat, elementsEnd: nat)
    returns (lines: seq<string>, ns: nat, ne: nat, es: nat, ee: nat)
    ensures lines == TrimAll(rawLines)
    ensures ns == LastIndexOr(lines, "$Nodes", nodesStart)
    ensures ne == LastIndexOr(lines, "$EndNodes", nodesEnd)
    ensures es == LastIndexOr(lines, "$Elements", elementsStart)
    ensures ee == LastIndexOr(lines, "$EndElements", elementsEnd)
  {
    lines := TrimAll(rawLines);
    var a, b, c, d := LocateSections(lines, nodesStart, nodesEnd, elementsStart, elementsEnd);
    ns, ne, es, ee := a, b, c, d;
  }

  /** LastIndexOr finds the last occurrence, and falls back to `absent` exactly when there is
      none. */
  lemma LastIndexOrSpec(lines: seq<string>, marker: string, absent: int)
    ensures var r := LastIndexOr(lines, marker, absent);
            && ((exists i :: 0 <= i < |lines| && lines[i] == marker) ==>
                  0 <= r < |lines| && lines[r] == marker && forall j :: r < j < |lines| ==> lines[j] != marker)
            && ((forall i :: 0 <= i < |lines| ==> lines[i] != marker) ==> r == absent)
  {
    LastIndexBelowSpec(lines, marker, absent, |lines|);
  }

  lemma {:induction false} LastIndexBelowSpec(lines: seq<string>, marker: string, absent: int, n: nat)
    requires n <= |lines|
    ensures var r := LastIndexBelow(lines, marker, absent, n);
            && ((exists i :: 0 <= i < n && lines[i] == marker) ==>
                  0 <= r < n && lines[r] == marker && forall j :: r < j < n ==> lines[j] != marker)
            && ((forall i :: 0 <= i < n ==> lines[i] != marker) ==> r == absent)
  {
    if n > 0 && lines[n - 1] != marker {
      LastIndexBelowSpec(lines, marker, absent, n - 1);
    }
  }

  /** The marker scan of loadFileAndLocateSections: one pass over the lines, recording the
      index of every marker line it meets. */
  method LocateSections(lines: seq<string>, nodesStart: int, nodesEnd: int, elementsStart: int, elementsEnd: int)
    returns (ns: int, ne: int, es: int, ee: int)
    ensures ns == LastIndexOr(lines, "$Nodes", nodesStart)
    ensures ne == LastIndexOr(lines, "$EndNodes", nodesEnd)
    ensures es == LastIndexOr(lines, "$Elements", elementsStart)
    ensures ee == LastIndexOr(lines, "$EndElements", elementsEnd)
  {
    ns, ne, es, ee := nodesStart, nodesEnd, elementsStart, elementsEnd;
    var i := 0;
    while i < |lines|
      invariant 0 <= i <= |lines|
      invariant ns == LastIndexBelow(lines, "$Nodes", nodesStart, i)
      invariant ne == LastIndexBelow(lines, "$EndNodes", nodesEnd, i)
      invariant es == LastIndexBelow(lines, "$Elements", elementsStart, i)
      invariant ee == LastIndexBelow(lines, "$EndElements", elementsEnd, i)
    {
      var line := lines[i];
      // the switch on the line: the markers differ, so at most one of these changes
      ns := if line == "$Nodes" then i else ns;
      ne := if line == "$EndNodes" then i else ne;
      es := if line == "$Elements" then i else es;
      ee := if line == "$EndElements" then i else ee;
      i := i + 1;
    }
  }

  // ---------- step 2: nodes ----------

  /** The node count of the section header: token 1 of the line after the $Nodes marker
      (numEntityBlocks numNodes minNodeTag maxNodeTag). */
  function NodeCount(fields: seq<seq<string>>, parseInt: string -> Option<int>, nodesStart: int): (r: Result<nat>)
    ensures r.Ok? ==> 0 <= nodesStart + 1 < |fields|
  {
    if !(0 <= nodesStart + 1 < |fields|) then Err(MissingLine(nodesStart + 1))
    else
      var header := fields[nodesStart + 1];
      if |header| < 2 then Err(MissingToken(1))
      else match parseInt(header[1])
        case None => Err(NotAnInteger(header[1]))
        case Some(n) => if n < 0 then Err(NegativeCount(n)) else Ok(n)
  }

  /** True for the lines that end a block scan: an empty line or a $ marker. */
  predicate EndsScan(line: string) {
    line == "" || StartsWith(line, "$")
  }

  /** The node block scan from lineIdx up to (not including) the end marker: a block header
      (entityDim entityTag parametric numNodesInBlock) announces n tag lines and then n
      coordinate lines; the coordinate lines become a range. The scan stops at the end index,
      at an empty or $ line, or at a line of fewer than four tokens. */
  function NodeRanges(lines: seq<string>, fields: seq<seq<string>>, parseInt: string -> Option<int>, lineIdx: int, end: int, target: nat): Result<seq<Range>>
    requires 0 <= lineIdx && |fields| == |lines|
    decreases end - lineIdx
  {
    if lineIdx >= end then Ok([])
    else if lineIdx >= |lines| then Err(MissingLine(lineIdx))
    else if EndsScan(lines[lineIdx]) then Ok([])
    else
      var bh := fields[lineIdx];
      if |bh| < 4 then Ok([])
      else match parseInt(bh[3])
        case None => Err(NotAnInteger(bh[3]))
        case Some(n) =>
          if n < 0 then Err(NegativeCount(n))
          else Prepend([Range(lineIdx + 1 + n, n, target)], NodeRanges(lines, fields, parseInt, lineIdx + 1 + 2 * n, end, target + n))
  }

  /** What one iteration of a block scan finds at its line. */
  datatype BlockHeader = NoBlock | BadHeader(error: Error) | Header(elementType: int, count: nat)

  function Prepend(rs: seq<Range>, r: Result<seq<Range>>): Result<seq<Range>> {
    match r
    case Ok(rest) => Ok(rs + rest)
    case Err(e) => Err(e)
  }

  /** fields holds the whitespace split of every line: the tokens the parse reads from it. */
  ghost predicate SplitsOf(lines: seq<string>, fields: seq<seq<string>>) {
    && |fields| == |lines|
    && forall i {:trigger SplitWhitespace(lines[i])} :: 0 <= i < |lines| ==> fields[i] == SplitWhitespace(lines[i])
  }

  ghost function FieldsOf(lines: seq<string>): (fields: seq<seq<string>>)
    ensures SplitsOf(lines, fields)
  {
    seq(|lines|, i requires 0 <= i < |lines| => SplitWhitespace(lines[i]))
  }

  /** Line i of a range, and the destination slot it is parsed into. */
  function LineOf(r: Range, i: int): int { r.startLine + i }
  function Slot(r: Range, i: int): int { r.target + i }

  /** The three coordinates of a node line, parsed in order. */
  function CoordinatesOf(c: seq<string>, parseCoord: string -> Option<real>): (r: Result<Node>)
    ensures r.Ok? <==> |c| >= 3 && forall k :: 0 <= k < 3 ==> parseCoord(c[k]).Some?
    ensures r.Ok? ==> r.value == Node(parseCoord(c[0]).value, parseCoord(c[1]).value, parseCoord(c[2]).value)
  {
    if |c| < 1 then Err(MissingToken(0))
    else match parseCoord(c[0])
      case None => Err(NotANumber(c[0]))
      case Some(x) =>
        if |c| < 2 then Err(MissingToken(1))
        else match parseCoord(c[1])
          case None => Err(NotANumber(c[1]))
          case Some(y) =>
            if |c| < 3 then Err(MissingToken(2))
            else match parseCoord(c[2])
              case None => Err(NotANumber(c[2]))
              case Some(z) => Ok(Node(x, y, z))
  }

  /** Line i of range r exists, parses as coordinates, and its slot is inside the node array. */
  ghost predicate CoordinateLineOk(fields: seq<seq<string>>, r: Range, i: int, total: nat, parseCoord: string -> Option<real>) {
    && 0 <= LineOf(r, i) < |fields|
    && CoordinatesOf(fields[LineOf(r, i)], parseCoord).Ok?
    && Slot(r, i) < total
  }

  ghost predicate AllCoordinatesOk(fields: seq<seq<string>>, rs: seq<Range>, total: nat, parseCoord: string -> Option<real>) {
    forall k, i :: 0 <= k < |rs| && 0 <= i < rs[k].count ==> CoordinateLineOk(fields, rs[k], i, total, parseCoord)
  }

  /** Every line of range r parses as coordinates, and the node array holds them at the
      line's slot. */
  ghost predicate RangeOfNodesParsed(nodes: seq<Node>, fields: seq<seq<string>>, r: Range, parseCoord: string -> Option<real>) {
    forall i :: 0 <= i < r.count ==>
      CoordinateLineOk(fields, r, i, |nodes|, parseCoord) && nodes[Slot(r, i)] == CoordinatesOf(fields[LineOf(r, i)], parseCoord).value
  }

  /** The node array after the parse: every range has been parsed into its slots, and the
      slots after the last range keep the zero coordinates they were allocated with. */
  ghost predicate NodesFilled(nodes: seq<Node>, fields: seq<seq<string>>, rs: seq<Range>, parseCoord: string -> Option<real>) {
    && (forall k :: 0 <= k < |rs| ==> RangeOfNodesParsed(nodes, fields, rs[k], parseCoord))
    && (forall j :: TotalCount(rs) <= j < |nodes| ==> nodes[j] == Origin)
  }

  // ---------- step 3: elements ----------

  /** The element block scan (entityDim entityTag elementType numElementsInBlock): every block
      is skipped by 1 + n lines, and only blocks of the wanted element type become ranges, at
      consecutive destination offsets. */
  function ElementRanges(lines: seq<string>, fields: seq<seq<string>>, parseInt: string -> Option<int>, lineIdx: int, end: int, elementType: int, total: nat): Result<seq<Range>>
    requires 0 <= lineIdx && |fields| == |lines|
    decreases end - lineIdx
  {
    if lineIdx >= end then Ok([])
    else if lineIdx >= |lines| then Err(MissingLine(lineIdx))
    else if EndsScan(lines[lineIdx]) then Ok([])
    else
      var bh := fields[lineIdx];
      if |bh| < 4 then Ok([])
      else match parseInt(bh[2])
        case None => Err(NotAnInteger(bh[2]))
        case Some(t) =>
          match parseInt(bh[3])
          case None => Err(NotAnInteger(bh[3]))
          case Some(n) =>
            if n < 0 then Err(NegativeCount(n))
            else if t == elementType then
              Prepend([Range(lineIdx + 1, n, total)], ElementRanges(lines, fields, parseInt, lineIdx + 1 + n, end, elementType, total + n))
            else ElementRanges(lines, fields, parseInt, lineIdx + 1 + n, end, elementType, total)
  }

  /** `count` integers parsed from tokens from, from + 1, ... in order. */
  function IndicesOf(parts: seq<string>, from: nat, count: nat, parseInt: string -> Option<int>): (r: Result<seq<int>>)
    decreases count
    ensures r.Ok? <==> (count == 0 || from + count <= |parts|) && forall p :: from <= p < from + count ==> parseInt(parts[p]).Some?
    ensures r.Ok? ==> |r.value| == count &&
                      forall p :: from <= p < from + count ==> parseInt(parts[p]) == Some(r.value[p - from])
  {
    if count == 0 then Ok([])
    else if from >= |parts| then Err(MissingToken(from))
    else match parseInt(parts[from])
      case None => Err(NotAnInteger(parts[from]))
      case Some(v) =>
        match IndicesOf(parts, from + 1, count - 1, parseInt)
        case Err(e) => Err(e)
        case Ok(rest) => Ok([v] + rest)
  }

  /** An element line (elementTag n1 n2 ...): the node indices after the tag. */
  function ElementOf(c: seq<string>, width: nat, parseInt: string -> Option<int>): Result<seq<int>> {
    IndicesOf(c, 1, width, parseInt)
  }

  ghost predicate ElementLineOk(fields: seq<seq<string>>, parseInt: string -> Option<int>, r: Range, i: int, width: nat) {
    && 0 <= LineOf(r, i) < |fields|
    && ElementOf(fields[LineOf(r, i)], width, parseInt).Ok?
  }

  ghost predicate AllElementLinesOk(fields: seq<seq<string>>, parseInt: string -> Option<int>, rs: seq<Range>, width: nat) {
    forall k, i :: 0 <= k < |rs| && 0 <= i < rs[k].count ==> ElementLineOk(fields, parseInt, rs[k], i, width)
  }

  function Zeros(n: nat): (r: seq<int>)
    ensures |r| == n && forall j :: 0 <= j < n ==> r[j] == 0
  {
    seq(n, _ => 0)
  }

  // ---------- ranges: the scans lay their ranges out contiguously ----------

  /** The destination offsets of a list of ranges are the running totals of their counts. */
  ghost predicate PrefixSums(rs: seq<Range>, t0: nat) {
    forall k :: 0 <= k < |rs| ==> rs[k].target == t0 + TotalCount(rs[..k])
  }

  lemma TotalCountSnoc(rs: seq<Range>, r: Range)
    ensures TotalCount(rs + [r]) == TotalCount(rs) + r.count
  {
    assert (rs + [r])[..|rs|] == rs;
  }

  lemma {:induction false} TotalCountCons(r: Range, rs: seq<Range>)
    ensures TotalCount([r] + rs) == r.count + TotalCount(rs)
  {
    if rs == [] {
      assert [r] + rs == [r];
      assert [r][..0] == [];
    } else {
      var init := rs[..|rs| - 1];
      assert ([r] + rs)[..|rs|] == [r] + init;
      TotalCountCons(r, init);
    }
  }

  lemma {:induction false} TotalCountPrefixMonotone(rs: seq<Range>, k: nat, l: nat)
    requires k <= l <= |rs|
    ensures TotalCount(rs[..k]) <= TotalCount(rs[..l])
    decreases l - k
  {
    if k < l {
      assert rs[..l] == rs[..l - 1] + [rs[l - 1]];
      TotalCountSnoc(rs[..l - 1], rs[l - 1]);
      assert rs[..l][..l - 1] == rs[..l - 1];
      TotalCountPrefixMonotone(rs, k, l - 1);
    }
  }

  lemma PrefixSumsCons(r: Range, rs: seq<Range>, t0: nat)
    requires r.target == t0
    requires PrefixSums(rs, t0 + r.count)
    ensures PrefixSums([r] + rs, t0)
  {
    var all := [r] + rs;
    forall k | 0 <= k < |all| ensures all[k].target == t0 + TotalCount(all[..k]) {
      if k == 0 {
        assert all[..0] == [];
      } else {
        assert all[..k] == [r] + rs[..k - 1];
        TotalCountCons(r, rs[..k - 1]);
      }
    }
  }

  /** Consecutive ranges occupy disjoint, adjacent destination slots, and together they fill
      [t0, t0 + TotalCount) without a gap. */
  lemma RangesDisjoint(rs: seq<Range>, t0: nat, k: nat, l: nat)
    requires PrefixSums(rs, t0)
    requires k < l < |rs|
    ensures rs[k].target + rs[k].count <= rs[l].target
  {
    assert rs[..k + 1] == rs[..k] + [rs[k]];
    TotalCountSnoc(rs[..k], rs[k]);
    TotalCountPrefixMonotone(rs, k + 1, l);
  }

  lemma RangeWithinTotal(rs: seq<Range>, t0: nat, k: nat)
    requires PrefixSums(rs, t0)
    requires k < |rs|
    ensures rs[k].target + rs[k].count <= t0 + TotalCount(rs)
  {
    assert rs[..k + 1] == rs[..k] + [rs[k]];
    TotalCountSnoc(rs[..k], rs[k]);
    TotalCountPrefixMonotone(rs, k + 1, |rs|);
    assert rs[..|rs|] == rs;
  }

  lemma PrefixSumsPrefix(rs: seq<Range>, t0: nat, n: nat)
    requires PrefixSums(rs, t0) && n <= |rs|
    ensures PrefixSums(rs[..n], t0)
  {
    var init := rs[..n];
    forall k | 0 <= k < |init| ensures init[k].target == t0 + TotalCount(init[..k]) {
      assert init[..k] == rs[..k];
    }
  }

  /** Every destination slot below the total belongs to exactly one line of one range. */
  lemma {:induction false} RangesCover(rs: seq<Range>, t0: nat, j: int)
    requires PrefixSums(rs, t0)
    requires t0 <= j < t0 + TotalCount(rs)
    ensures exists k, i :: 0 <= k < |rs| && 0 <= i < rs[k].count && Slot(rs[k], i) == j
  {
    var last := |rs| - 1;
    var init := rs[..last];
    assert rs == init + [rs[last]];
    TotalCountSnoc(init, rs[last]);
    PrefixSumsPrefix(rs, t0, last);
    if j < t0 + TotalCount(init) {
      RangesCover(init, t0, j);
      var k, i :| 0 <= k < |init| && 0 <= i < init[k].count && Slot(init[k], i) == j;
      assert rs[k] == init[k];
    } else {
      assert rs[last].target == t0 + TotalCount(init);
      var i := j - rs[last].target;
      assert 0 <= i < rs[last].count && Slot(rs[last], i) == j;
    }
  }

  /** One step of the node scan: a non-empty result starts with the range of the block whose
      header is at lineIdx, and continues with the scan after that block. */
  lemma NodeRangesStep(lines: seq<string>, fields: seq<seq<string>>, parseInt: string -> Option<int>, lineIdx: int, end: int, target: nat)
    requires 0 <= lineIdx && |fields| == |lines|
    requires NodeRanges(lines, fields, parseInt, lineIdx, end, target).Ok?
    requires NodeRanges(lines, fields, parseInt, lineIdx, end, target).value != []
    ensures var rs := NodeRanges(lines, fields, parseInt, lineIdx, end, target).value;
            var n := rs[0].count;
            && NodeBlockHeaderAt(lines, fields, parseInt, lineIdx, end, n)
            && rs[0] == Range(lineIdx + 1 + n, n, target)
            && NodeRanges(lines, fields, parseInt, lineIdx + 1 + 2 * n, end, target + n).Ok?
            && rs[1..] == NodeRanges(lines, fields, parseInt, lineIdx + 1 + 2 * n, end, target + n).value
  {
  }

  /** Every range of a node scan result follows its block header: range r starts after the
      header line and its r.count tag lines, and that header announces r.count nodes. */
  ghost predicate NodeHeaders(lines: seq<string>, fields: seq<seq<string>>, parseInt: string -> Option<int>, end: int, rs: seq<Range>)
    decreases |rs|
  {
    rs == [] || (NodeBlockHeaderAt(lines, fields, parseInt, rs[0].startLine - 1 - rs[0].count, end, rs[0].count) && NodeHeaders(lines, fields, parseInt, end, rs[1..]))
  }

  /** The node scan's ranges are laid out as the format says: each range follows its block
      header, and the destination offsets are the running totals. */
  lemma {:induction false} NodeRangesLayout(lines: seq<string>, fields: seq<seq<string>>, parseInt: string -> Option<int>, lineIdx: int, end: int, target: nat)
    requires 0 <= lineIdx && |fields| == |lines|
    requires NodeRanges(lines, fields, parseInt, lineIdx, end, target).Ok?
    ensures var rs := NodeRanges(lines, fields, parseInt, lineIdx, end, target).value;
            PrefixSums(rs, target) && NodeHeaders(lines, fields, parseInt, end, rs)
    decreases end - lineIdx
  {
    var rs := NodeRanges(lines, fields, parseInt, lineIdx, end, target).value;
    if rs != [] {
      NodeRangesStep(lines, fields, parseInt, lineIdx, end, target);
      var n := rs[0].count;
      var rest := NodeRanges(lines, fields, parseInt, lineIdx + 1 + 2 * n, end, target + n).value;
      assert rs == [rs[0]] + rest;
      NodeRangesLayout(lines, fields, parseInt, lineIdx + 1 + 2 * n, end, target + n);
      PrefixSumsCons(rs[0], rest, target);
    }
  }

  /** The header of range k of a node scan, by position. */
  lemma {:induction false} NodeHeadersAt(lines: seq<string>, fields: seq<seq<string>>, parseInt: string -> Option<int>, end: int, rs: seq<Range>, k: int)
    requires NodeHeaders(lines, fields, parseInt, end, rs)
    requires 0 <= k < |rs|
    ensures NodeBlockHeaderAt(lines, fields, parseInt, rs[k].startLine - 1 - rs[k].count, end, rs[k].count)
    decreases k
  {
    if k > 0 {
      NodeHeadersAt(lines, fields, parseInt, end, rs[1..], k - 1);
    }
  }

  /** Every range of an element scan result follows a block header of the wanted type that
      announces r.count elements. */
  ghost predicate ElementHeaders(lines: seq<string>, fields: seq<seq<string>>, parseInt: string -> Option<int>, end: int, elementType: int, rs: seq<Range>)
    decreases |rs|
  {
    rs == [] || (ElementBlockHeaderAt(lines, fields, parseInt, rs[0].startLine - 1, end, elementType, rs[0].count) && ElementHeaders(lines, fields, parseInt, end, elementType, rs[1..]))
  }

  /** The header of range k of an element scan, by position. */
  lemma {:induction false} ElementHeadersAt(lines: seq<string>, fields: seq<seq<string>>, parseInt: string -> Option<int>, end: int, elementType: int, rs: seq<Range>, k: int)
    requires ElementHeaders(lines, fields, parseInt, end, elementType, rs)
    requires 0 <= k < |rs|
    ensures ElementBlockHeaderAt(lines, fields, parseInt, rs[k].startLine - 1, end, elementType, rs[k].count)
    decreases k
  {
    if k > 0 {
      ElementHeadersAt(lines, fields, parseInt, end, elementType, rs[1..], k - 1);
    }
  }

  /** Line h is a node block header inside the section that announces n nodes. */
  ghost predicate NodeBlockHeaderAt(lines: seq<string>, fields: seq<seq<string>>, parseInt: string -> Option<int>, h: int, end: int, n: nat) {
    && 0 <= h < |lines| && h < |fields| && h < end
    && !EndsScan(lines[h])
    && |fields[h]| >= 4
    && parseInt(fields[h][3]) == Some(n)
  }

  /** Line h is an element block header inside the section, of the given element type,
      announcing n elements. */
  ghost predicate ElementBlockHeaderAt(lines: seq<string>, fields: seq<seq<string>>, parseInt: string -> Option<int>, h: int, end: int, elementType: int, n: nat) {
    && 0 <= h < |lines| && h < |fields| && h < end
    && !EndsScan(lines[h])
    && |fields[h]| >= 4
    && parseInt(fields[h][2]) == Some(elementType)
    && parseInt(fields[h][3]) == Some(n)
  }

  /** The element scan keeps exactly the blocks of the wanted type: every range follows a
      header of that type announcing its count, and the offsets are running totals. */
  lemma {:induction false} ElementRangesLayout(lines: seq<string>, fields: seq<seq<string>>, parseInt: string -> Option<int>, lineIdx: int, end: int, elementType: int, total: nat)
    requires 0 <= lineIdx && |fields| == |lines|
    requires ElementRanges(lines, fields, parseInt, lineIdx, end, elementType, total).Ok?
    ensures var rs := ElementRanges(lines, fields, parseInt, lineIdx, end, elementType, total).value;
            PrefixSums(rs, total) && ElementHeaders(lines, fields, parseInt, end, elementType, rs)
    decreases end - lineIdx
  {
    var rs := ElementRanges(lines, fields, parseInt, lineIdx, end, elementType, total).value;
    if lineIdx < end && lineIdx < |lines| && !EndsScan(lines[lineIdx]) && |fields[lineIdx]| >= 4 {
      var bh := fields[lineIdx];
      var t := parseInt(bh[2]).value;
      var n := parseInt(bh[3]).value;
      if t == elementType {
        var rest := ElementRanges(lines, fields, parseInt, lineIdx + 1 + n, end, elementType, total + n).value;
        assert rs == [Range(lineIdx + 1, n, total)] + rest;
        ElementRangesLayout(lines, fields, parseInt, lineIdx + 1 + n, end, elementType, total + n);
        PrefixSumsCons(Range(lineIdx + 1, n, total), rest, total);
      } else {
        ElementRangesLayout(lines, fields, parseInt, lineIdx + 1 + n, end, elementType, total);
      }
    }
  }

  /** Two node arrays that both satisfy the fill specification are equal: the ranges never
      write the same slot, so the order in which the parallel parse fills them cannot matter. */
  lemma NodesFilledUnique(a: seq<Node>, b: seq<Node>, fields: seq<seq<string>>, rs: seq<Range>, parseCoord: string -> Option<real>)
    requires |a| == |b|
    requires PrefixSums(rs, 0)
    requires NodesFilled(a, fields, rs, parseCoord) && NodesFilled(b, fields, rs, parseCoord)
    ensures a == b
  {
    forall j | 0 <= j < |a| ensures a[j] == b[j] {
      if j < TotalCount(rs) {
        RangesCover(rs, 0, j);
        var k, i :| 0 <= k < |rs| && 0 <= i < rs[k].count && Slot(rs[k], i) == j;
        assert RangeOfNodesParsed(a, fields, rs[k], parseCoord) && RangeOfNodesParsed(b, fields, rs[k], parseCoord);
      }
    }
  }

  // ---------- step 5: unused nodes and renumbering ----------

  /** Some element of the list names node index v. */
  ghost predicate Refers(elems: seq<seq<int>>, v: int) {
    exists k, j :: 0 <= k < |elems| && 0 <= j < |elems[k]| && elems[k][j] == v
  }

  predicate IndicesWithin(elems: seq<seq<int>>, lo: int, hi: int) {
    forall k, j :: 0 <= k < |elems| && 0 <= j < |elems[k]| ==> lo <= elems[k][j] <= hi
  }

  /** The used[] flags over old indices 0..n: set for every index some element names. */
  ghost function UsedFlags(n: nat, mains: seq<seq<int>>, boundary: seq<seq<int>>): (used: seq<bool>)
    ensures |used| == n + 1
  {
    (if n == 0 then [] else UsedFlags(n - 1, mains, boundary)) + [Refers(mains, n) || Refers(boundary, n)]
  }

  lemma {:induction false} UsedFlagsAt(n: nat, mains: seq<seq<int>>, boundary: seq<seq<int>>, v: int)
    requires 0 <= v <= n
    ensures UsedFlags(n, mains, boundary)[v] == (Refers(mains, v) || Refers(boundary, v))
  {
    if v < n {
      UsedFlagsAt(n - 1, mains, boundary, v);
    }
  }

  /** Flags that are set exactly for the named indices are the used[] flags. */
  lemma FlagsAreUsedFlags(flags: seq<bool>, n: nat, mains: seq<seq<int>>, boundary: seq<seq<int>>)
    requires |flags| == n + 1
    requires forall v :: 0 <= v <= n ==> (flags[v] <==> Refers(mains, v) || Refers(boundary, v))
    ensures flags == UsedFlags(n, mains, boundary)
  {
    forall v | 0 <= v <= n ensures flags[v] == UsedFlags(n, mains, boundary)[v] {
      UsedFlagsAt(n, mains, boundary, v);
    }
  }

  /** How many of the old indices 1 .. i - 1 are used. */
  function CountUsed(used: seq<bool>, i: nat): (c: nat)
    requires i <= |used|
    ensures c <= i
  {
    if i <= 1 then 0 else CountUsed(used, i - 1) + (if used[i - 1] then 1 else 0)
  }

  /** oldToNewIndex: a used old index i >= 1 gets its rank among the used indices, every other
      slot (including slot 0) stays 0. */
  function Renumbering(used: seq<bool>): (r: seq<int>)
    ensures |r| == |used|
    ensures forall i :: 1 <= i < |used| && used[i] ==> 1 <= r[i] <= CountUsed(used, |used|)
  {
    assert forall i :: 1 <= i < |used| && used[i] ==> CountUsed(used, i + 1) <= CountUsed(used, |used|) by {
      forall i | 1 <= i < |used| && used[i] ensures CountUsed(used, i + 1) <= CountUsed(used, |used|) {
        CountUsedMonotone(used, i + 1, |used|);
      }
    }
    seq(|used|, i requires 0 <= i < |used| => if i >= 1 && used[i] then CountUsed(used, i + 1) else 0)
  }

  /** Every element index replaced by its new number. */
  function Renumbered(elems: seq<seq<int>>, oldToNew: seq<int>): (r: seq<seq<int>>)
    requires IndicesWithin(elems, 0, |oldToNew| - 1)
    ensures |r| == |elems|
    ensures forall k :: 0 <= k < |r| ==> |r[k]| == |elems[k]|
  {
    seq(|elems|, k requires 0 <= k < |elems| =>
      seq(|elems[k]|, j requires 0 <= j < |elems[k]| => oldToNew[elems[k][j]]))
  }

  /** The compacted node array: one slot per used index, holding that index's node at its
      new number. */
  ghost predicate CompactedBy(newNodes: seq<Node>, nodes: seq<Node>, used: seq<bool>)
    requires |used| == |nodes| + 1
  {
    && |newNodes| == CountUsed(used, |used|)
    && forall i :: 1 <= i < |used| && used[i] ==> newNodes[Renumbering(used)[i] - 1] == nodes[i - 1]
  }

  lemma CountUsedMonotone(used: seq<bool>, i: nat, j: nat)
    requires i <= j <= |used|
    ensures CountUsed(used, i) <= CountUsed(used, j)
    decreases j - i
  {
    if i < j { CountUsedMonotone(used, i, j - 1); }
  }

  /** The renumbering is strictly increasing on used indices, so it keeps the original order
      of the surviving nodes and never maps two nodes to one. */
  lemma RenumberingIncreasing(used: seq<bool>, i: nat, j: nat)
    requires 1 <= i < j < |used|
    requires used[i] && used[j]
    ensures Renumbering(used)[i] < Renumbering(used)[j]
  {
    CountUsedMonotone(used, i + 1, j);
  }

  /** A used index outranks every used index before it. */
  lemma RanksBelow(used: seq<bool>, i: nat)
    requires 1 <= i < |used| && used[i]
    ensures forall j :: 1 <= j < i && used[j] ==> Renumbering(used)[j] < Renumbering(used)[i]
  {
    forall j | 1 <= j < i && used[j] ensures Renumbering(used)[j] < Renumbering(used)[i] {
      RenumberingIncreasing(used, j, i);
    }
  }

  /** Every new number 1 .. newCount is the image of a used old index. */
  lemma {:induction false} RenumberingOnto(used: seq<bool>, m: int)
    requires |used| >= 1
    requires 1 <= m <= CountUsed(used, |used|)
    ensures exists i :: 1 <= i < |used| && used[i] && Renumbering(used)[i] == m
  {
    var n := |used| - 1;
    if CountUsed(used, n) >= m {
      var init := used[..n];
      CountUsedPrefix(used, n, n);
      RenumberingOnto(init, m);
      var i :| 1 <= i < |init| && init[i] && Renumbering(init)[i] == m;
      CountUsedPrefix(used, n, i + 1);
    } else {
      assert used[n] && CountUsed(used, n + 1) == m;
    }
  }

  lemma {:induction false} CountUsedPrefix(used: seq<bool>, n: nat, i: nat)
    requires i <= n <= |used|
    ensures CountUsed(used[..n], i) == CountUsed(used, i)
  {
    if i > 1 {
      CountUsedPrefix(used, n, i - 1);
    }
  }

  /** newCount is the number of distinct used indices in 1 .. n. */
  lemma {:induction false} CountUsedIsCardinality(used: seq<bool>, i: nat)
    requires 1 <= i <= |used|
    ensures CountUsed(used, i) == |set j | 1 <= j < i && used[j]|
  {
    if i > 1 {
      CountUsedIsCardinality(used, i - 1);
      var before := set j | 1 <= j < i - 1 && used[j];
      var now := set j | 1 <= j < i && used[j];
      if used[i - 1] {
        assert now == before + {i - 1};
      } else {
        assert now == before;
      }
    }
  }

  /** After renumbering with the flags of the elements themselves, every index is in
      1 .. newCount, except that an index 0 stays 0 (slot 0 of the used[] array is never
      numbered). */
  lemma RenumberedIndicesValid(n: nat, mains: seq<seq<int>>, boundary: seq<seq<int>>)
    requires IndicesWithin(mains, 0, n) && IndicesWithin(boundary, 0, n)
    ensures var used := UsedFlags(n, mains, boundary);
            var oldToNew := Renumbering(used);
            && IndicesWithin(Renumbered(mains, oldToNew), 0, CountUsed(used, n + 1))
            && IndicesWithin(Renumbered(boundary, oldToNew), 0, CountUsed(used, n + 1))
            && (forall k, j :: 0 <= k < |mains| && 0 <= j < |mains[k]| ==>
                  (Renumbered(mains, oldToNew)[k][j] == 0 <==> mains[k][j] == 0))
            && (forall k, j :: 0 <= k < |boundary| && 0 <= j < |boundary[k]| ==>
                  (Renumbered(boundary, oldToNew)[k][j] == 0 <==> boundary[k][j] == 0))
  {
    var used := UsedFlags(n, mains, boundary);
    forall k, j | 0 <= k < |mains| && 0 <= j < |mains[k]| && mains[k][j] >= 1
      ensures 1 <= Renumbering(used)[mains[k][j]] <= CountUsed(used, n + 1)
    {
      assert Refers(mains, mains[k][j]);
      UsedFlagsAt(n, mains, boundary, mains[k][j]);
    }
    forall k, j | 0 <= k < |boundary| && 0 <= j < |boundary[k]| && boundary[k][j] >= 1
      ensures 1 <= Renumbering(used)[boundary[k][j]] <= CountUsed(used, n + 1)
    {
      assert Refers(boundary, boundary[k][j]);
      UsedFlagsAt(n, mains, boundary, boundary[k][j]);
    }
  }

  /** No orphan survives: every new node number is named by some renumbered element. */
  lemma NoUnreferencedNodes(n: nat, mains: seq<seq<int>>, boundary: seq<seq<int>>, m: int)
    requires IndicesWithin(mains, 0, n) && IndicesWithin(boundary, 0, n)
    requires 1 <= m <= CountUsed(UsedFlags(n, mains, boundary), n + 1)
    ensures var oldToNew := Renumbering(UsedFlags(n, mains, boundary));
            Refers(Renumbered(mains, oldToNew), m) || Refers(Renumbered(boundary, oldToNew), m)
  {
    var used := UsedFlags(n, mains, boundary);
    var oldToNew := Renumbering(used);
    RenumberingOnto(used, m);
    var i :| 1 <= i < |used| && used[i] && oldToNew[i] == m;
    UsedFlagsAt(n, mains, boundary, i);
    if Refers(mains, i) {
      var k, j :| 0 <= k < |mains| && 0 <= j < |mains[k]| && mains[k][j] == i;
      assert Renumbered(mains, oldToNew)[k][j] == m;
    } else {
      var k, j :| 0 <= k < |boundary| && 0 <= j < |boundary[k]| && boundary[k][j] == i;
      assert Renumbered(boundary, oldToNew)[k][j] == m;
    }
  }

  // ---------- step 6: output layout ----------

  /** After the compaction every index lies within the kept nodes and every kept node is
      named by some element. */
  lemma CompactionResult(n: nat, mains: seq<seq<int>>, boundary: seq<seq<int>>,
                         newCount: int, newMains: seq<seq<int>>, newBoundary: seq<seq<int>>)
    requires IndicesWithin(mains, 0, n) && IndicesWithin(boundary, 0, n)
    requires newCount == CountUsed(UsedFlags(n, mains, boundary), n + 1)
    requires newMains == Renumbered(mains, Renumbering(UsedFlags(n, mains, boundary)))
    requires newBoundary == Renumbered(boundary, Renumbering(UsedFlags(n, mains, boundary)))
    ensures IndicesWithin(newMains, 0, newCount) && IndicesWithin(newBoundary, 0, newCount)
    ensures forall m :: 1 <= m <= newCount ==> Refers(newMains, m) || Refers(newBoundary, m)
  {
    RenumberedIndicesValid(n, mains, boundary);
    forall m | 1 <= m <= newCount
      ensures Refers(newMains, m) || Refers(newBoundary, m)
    {
      NoUnreferencedNodes(n, mains, boundary, m);
    }
  }

  /** The header line: node count, dimension, element count, values per element line. */
  function HeaderLine(nodeCount: int, dimension: int, elementCount: int): string {
    IntToString(nodeCount) + " " + IntToString(dimension) + " " + IntToString(elementCount) + " " + IntToString(dimension + 1)
  }

  function NodeLines(d: Dimension, formatCoord: real -> string, nodes: seq<Node>): (r: seq<string>)
    ensures |r| == |nodes|
  {
    if nodes == [] then [] else [FormatNode(d, formatCoord, nodes[0])] + NodeLines(d, formatCoord, nodes[1..])
  }

  lemma {:induction false} NodeLinesAt(d: Dimension, formatCoord: real -> string, nodes: seq<Node>, i: int)
    requires 0 <= i < |nodes|
    ensures NodeLines(d, formatCoord, nodes)[i] == FormatNode(d, formatCoord, nodes[i])
  {
    var rest := nodes[1..];
    assert NodeLines(d, formatCoord, nodes) == [FormatNode(d, formatCoord, nodes[0])] + NodeLines(d, formatCoord, rest);
    if i > 0 {
      NodeLinesAt(d, formatCoord, rest, i - 1);
      assert rest[i - 1] == nodes[i];
    }
  }

  function MainLines(d: Dimension, mains: seq<seq<int>>): (r: seq<string>)
    requires OfWidth(mains, NodesPerMainElement(d))
    ensures |r| == |mains|
  {
    if mains == [] then [] else [FormatMainElement(d, mains[0])] + MainLines(d, mains[1..])
  }

  function BoundaryLines(d: Dimension, boundary: seq<seq<int>>): (r: seq<string>)
    requires OfWidth(boundary, NodesPerBoundaryElement(d))
    ensures |r| == |boundary|
  {
    if boundary == [] then [] else [FormatBoundaryElement(d, boundary[0])] + BoundaryLines(d, boundary[1..])
  }

  lemma {:induction false} MainLinesAt(d: Dimension, mains: seq<seq<int>>, i: int)
    requires OfWidth(mains, NodesPerMainElement(d)) && 0 <= i < |mains|
    ensures MainLines(d, mains)[i] == FormatMainElement(d, mains[i])
  {
    var rest := mains[1..];
    assert MainLines(d, mains) == [FormatMainElement(d, mains[0])] + MainLines(d, rest);
    if i > 0 {
      MainLinesAt(d, rest, i - 1);
      assert rest[i - 1] == mains[i];
    }
  }

  lemma {:induction false} BoundaryLinesAt(d: Dimension, boundary: seq<seq<int>>, i: int)
    requires OfWidth(boundary, NodesPerBoundaryElement(d)) && 0 <= i < |boundary|
    ensures BoundaryLines(d, boundary)[i] == FormatBoundaryElement(d, boundary[i])
  {
    var rest := boundary[1..];
    assert BoundaryLines(d, boundary) == [FormatBoundaryElement(d, boundary[0])] + BoundaryLines(d, rest);
    if i > 0 {
      BoundaryLinesAt(d, rest, i - 1);
      assert rest[i - 1] == boundary[i];
    }
  }

  /** Any list that holds the format of each node, in order, is NodeLines. */
  lemma NodeLinesUnique(d: Dimension, formatCoord: real -> string, nodes: seq<Node>, s: seq<string>)
    requires |s| == |nodes|
    requires forall i :: 0 <= i < |s| ==> s[i] == FormatNode(d, formatCoord, nodes[i])
    ensures s == NodeLines(d, formatCoord, nodes)
  {
    forall i | 0 <= i < |s| ensures s[i] == NodeLines(d, formatCoord, nodes)[i] {
      NodeLinesAt(d, formatCoord, nodes, i);
    }
  }

  lemma MainLinesUnique(d: Dimension, mains: seq<seq<int>>, s: seq<string>)
    requires OfWidth(mains, NodesPerMainElement(d)) && |s| == |mains|
    requires forall i :: 0 <= i < |s| ==> s[i] == FormatMainElement(d, mains[i])
    ensures s == MainLines(d, mains)
  {
    forall i | 0 <= i < |s| ensures s[i] == MainLines(d, mains)[i] {
      MainLinesAt(d, mains, i);
    }
  }

  lemma BoundaryLinesUnique(d: Dimension, boundary: seq<seq<int>>, s: seq<string>)
    requires OfWidth(boundary, NodesPerBoundaryElement(d)) && |s| == |boundary|
    requires forall i :: 0 <= i < |s| ==> s[i] == FormatBoundaryElement(d, boundary[i])
    ensures s == BoundaryLines(d, boundary)
  {
    forall i | 0 <= i < |s| ensures s[i] == BoundaryLines(d, boundary)[i] {
      BoundaryLinesAt(d, boundary, i);
    }
  }

  /** The node-string loop of writeOutputParallel: one formatted line per node. */
  method FormatNodeStrings(d: Dimension, formatCoord: real -> string, nodes: array<Node>) returns (r: seq<string>)
    ensures r == NodeLines(d, formatCoord, nodes[..])
  {
    var strs := new string[nodes.Length];
    var i := 0;
    while i < nodes.Length
      invariant 0 <= i <= nodes.Length
      invariant forall j :: 0 <= j < i ==> strs[j] == FormatNode(d, formatCoord, nodes[j])
    {
      strs[i] := FormatNode(d, formatCoord, nodes[i]);
      i := i + 1;
    }
    r := strs[..];
    NodeLinesUnique(d, formatCoord, nodes[..], r);
  }

  /** The main-element string loop of writeOutputParallel. */
  method FormatMainStrings(d: Dimension, mains: array<seq<int>>) returns (r: seq<string>)
    requires OfWidth(mains[..], NodesPerMainElement(d))
    ensures r == MainLines(d, mains[..])
  {
    var strs := new string[mains.Length];
    var i := 0;
    while i < mains.Length
      invariant 0 <= i <= mains.Length
      invariant forall j :: 0 <= j < i ==> strs[j] == FormatMainElement(d, mains[..][j])
    {
      strs[i] := FormatMainElement(d, mains[..][i]);
      i := i + 1;
    }
    r := strs[..];
    MainLinesUnique(d, mains[..], r);
  }

  /** The boundary-element string loop of writeOutputParallel. */
  method FormatBoundaryStrings(d: Dimension, boundary: array<seq<int>>) returns (r: seq<string>)
    requires OfWidth(boundary[..], NodesPerBoundaryElement(d))
    ensures r == BoundaryLines(d, boundary[..])
  {
    var strs := new string[boundary.Length];
    var i := 0;
    while i < boundary.Length
      invariant 0 <= i <= boundary.Length
      invariant forall j :: 0 <= j < i ==> strs[j] == FormatBoundaryElement(d, boundary[..][j])
    {
      strs[i] := FormatBoundaryElement(d, boundary[..][i]);
      i := i + 1;
    }
    r := strs[..];
    BoundaryLinesUnique(d, boundary[..], r);
  }

  /** The MTC file as lines (each written with a trailing line separator): the header, one line
      per node, one per main element, one per boundary element. */
  function MtcLines(d: Dimension, formatCoord: real -> string, nodes: seq<Node>, mains: seq<seq<int>>, boundary: seq<seq<int>>): seq<string>
    requires OfWidth(mains, NodesPerMainElement(d))
    requires OfWidth(boundary, NodesPerBoundaryElement(d))
  {
    [HeaderLine(|nodes|, DimensionValue(d), |mains| + |boundary|)]
      + NodeLines(d, formatCoord, nodes) + MainLines(d, mains) + BoundaryLines(d, boundary)
  }

  /** Where each record sits in the output: line 0 is the header, nodes follow from line 1,
      then the main elements, then the boundary elements. */
  lemma MtcLinesLayout(d: Dimension, formatCoord: real -> string, nodes: seq<Node>, mains: seq<seq<int>>, boundary: seq<seq<int>>)
    requires OfWidth(mains, NodesPerMainElement(d))
    requires OfWidth(boundary, NodesPerBoundaryElement(d))
    ensures var out := MtcLines(d, formatCoord, nodes, mains, boundary);
            && |out| == 1 + |nodes| + |mains| + |boundary|
            && out[0] == HeaderLine(|nodes|, DimensionValue(d), |mains| + |boundary|)
            && (forall i :: 0 <= i < |nodes| ==> out[1 + i] == FormatNode(d, formatCoord, nodes[i]))
            && (forall i :: 0 <= i < |mains| ==> out[1 + |nodes| + i] == FormatMainElement(d, mains[i]))
            && (forall i :: 0 <= i < |boundary| ==> out[1 + |nodes| + |mains| + i] == FormatBoundaryElement(d, boundary[i]))
  {
    forall i | 0 <= i < |nodes|
      ensures MtcLines(d, formatCoord, nodes, mains, boundary)[1 + i] == FormatNode(d, formatCoord, nodes[i])
    {
      MtcNodeLineAt(d, formatCoord, nodes, mains, boundary, i);
    }
    forall i | 0 <= i < |mains|
      ensures MtcLines(d, formatCoord, nodes, mains, boundary)[1 + |nodes| + i] == FormatMainElement(d, mains[i])
    {
      MtcMainLineAt(d, formatCoord, nodes, mains, boundary, i);
    }
    forall i | 0 <= i < |boundary|
      ensures MtcLines(d, formatCoord, nodes, mains, boundary)[1 + |nodes| + |mains| + i] == FormatBoundaryElement(d, boundary[i])
    {
      MtcBoundaryLineAt(d, formatCoord, nodes, mains, boundary, i);
    }
  }

  lemma MtcNodeLineAt(d: Dimension, formatCoord: real -> string, nodes: seq<Node>, mains: seq<seq<int>>, boundary: seq<seq<int>>, i: int)
    requires OfWidth(mains, NodesPerMainElement(d))
    requires OfWidth(boundary, NodesPerBoundaryElement(d))
    requires 0 <= i < |nodes|
    ensures MtcLines(d, formatCoord, nodes, mains, boundary)[1 + i] == FormatNode(d, formatCoord, nodes[i])
  {
    NodeLinesAt(d, formatCoord, nodes, i);
    RunAt(HeaderLine(|nodes|, DimensionValue(d), |mains| + |boundary|), [], NodeLines(d, formatCoord, nodes),
          MainLines(d, mains) + BoundaryLines(d, boundary), 0, i, FormatNode(d, formatCoord, nodes[i]));
  }

  lemma MtcMainLineAt(d: Dimension, formatCoord: real -> string, nodes: seq<Node>, mains: seq<seq<int>>, boundary: seq<seq<int>>, i: int)
    requires OfWidth(mains, NodesPerMainElement(d))
    requires OfWidth(boundary, NodesPerBoundaryElement(d))
    requires 0 <= i < |mains|
    ensures MtcLines(d, formatCoord, nodes, mains, boundary)[1 + |nodes| + i] == FormatMainElement(d, mains[i])
  {
    var h, a, b, c := HeaderLine(|nodes|, DimensionValue(d), |mains| + |boundary|), NodeLines(d, formatCoord, nodes),
                      MainLines(d, mains), BoundaryLines(d, boundary);
    assert MtcLines(d, formatCoord, nodes, mains, boundary) == [h] + a + b + c;
    MainLinesAt(d, mains, i);
    RunAt(h, a, b, c, |nodes|, i, FormatMainElement(d, mains[i]));
  }

  lemma MtcBoundaryLineAt(d: Dimension, formatCoord: real -> string, nodes: seq<Node>, mains: seq<seq<int>>, boundary: seq<seq<int>>, i: int)
    requires OfWidth(mains, NodesPerMainElement(d))
    requires OfWidth(boundary, NodesPerBoundaryElement(d))
    requires 0 <= i < |boundary|
    ensures MtcLines(d, formatCoord, nodes, mains, boundary)[1 + |nodes| + |mains| + i] == FormatBoundaryElement(d, boundary[i])
  {
    var h, a, b, c := HeaderLine(|nodes|, DimensionValue(d), |mains| + |boundary|), NodeLines(d, formatCoord, nodes),
                      MainLines(d, mains), BoundaryLines(d, boundary);
    assert MtcLines(d, formatCoord, nodes, mains, boundary) == [h] + a + b + c;
    BoundaryLinesAt(d, boundary, i);
    LastRunAt(h, a, b, c, |nodes| + |mains|, i, FormatBoundaryElement(d, boundary[i]));
  }

  /** Line 1 + na + i of a header, a run of na lines, then b, then c, is b[i]. */
  lemma RunAt<T>(h: T, a: seq<T>, b: seq<T>, c: seq<T>, na: int, i: int, v: T)
    requires na == |a| && 0 <= i < |b| && b[i] == v
    ensures ([h] + a + b + c)[1 + na + i] == v
  {
  }

  /** Line 1 + nab + i of a header, runs a and b of nab lines together, then c, is c[i]. */
  lemma LastRunAt<T>(h: T, a: seq<T>, b: seq<T>, c: seq<T>, nab: int, i: int, v: T)
    requires nab == |a| + |b| && 0 <= i < |c| && c[i] == v
    ensures ([h] + a + b + c)[1 + nab + i] == v
  {
  }

  /** writeOutputParallel's body: the header, then the node, main and boundary strings. */
  method WriteMtc(d: Dimension, formatCoord: real -> string, nodes: array<Node>, mains: array<seq<int>>, boundary: array<seq<int>>)
    returns (out: seq<string>)
    requires OfWidth(mains[..], NodesPerMainElement(d))
    requires OfWidth(boundary[..], NodesPerBoundaryElement(d))
    ensures out == MtcLines(d, formatCoord, nodes[..], mains[..], boundary[..])
  {
    var nodeStrings := FormatNodeStrings(d, formatCoord, nodes);
    var mainStrings := FormatMainStrings(d, mains);
    var boundaryStrings := FormatBoundaryStrings(d, boundary);
    var totalElements := mains.Length + boundary.Length;
    var header := HeaderLine(nodes.Length, DimensionValue(d), totalElements);
    assert header == HeaderLine(|nodes[..]|, DimensionValue(d), |mains[..]| + |boundary[..]|);
    out := [header] + nodeStrings + mainStrings + boundaryStrings;
  }


  // ---------- the conversion as a whole ----------

  /** The field split of the loaded lines is unique. */
  lemma SplitsAreFields(lines: seq<string>, fields: seq<seq<string>>)
    requires SplitsOf(lines, fields)
    ensures fields == FieldsOf(lines)
  {
    var f := FieldsOf(lines);
    forall i | 0 <= i < |lines| ensures fields[i] == f[i] {
      assert fields[i] == SplitWhitespace(lines[i]);
    }
  }

  /** The node parse of the loaded lines goes through: the header's count is readable, the
      block scan succeeds and every coordinate line of every block is well formed. */
  ghost predicate NodesParse(lines: seq<string>, parseInt: string -> Option<int>, parseCoord: string -> Option<real>, ns: nat, ne: int) {
    var fields := FieldsOf(lines);
    && NodeCount(fields, parseInt, ns).Ok?
    && NodeRanges(lines, fields, parseInt, ns + 2, ne, 0).Ok?
    && AllCoordinatesOk(fields, NodeRanges(lines, fields, parseInt, ns + 2, ne, 0).value, NodeCount(fields, parseInt, ns).value, parseCoord)
  }

  /** The node parse goes through and builds `nodes`: the header's count of slots, every block
      parsed into its own slots. */
  ghost predicate NodesParsed(lines: seq<string>, parseInt: string -> Option<int>, parseCoord: string -> Option<real>, ns: nat, ne: int, nodes: seq<Node>) {
    && NodesParse(lines, parseInt, parseCoord, ns, ne)
    && var fields := FieldsOf(lines);
       && |nodes| == NodeCount(fields, parseInt, ns).value
       && NodesFilled(nodes, fields, NodeRanges(lines, fields, parseInt, ns + 2, ne, 0).value, parseCoord)
  }

  /** The parsed elements after the dimension's fix: in 2D the orientation check against the
      nodes, in 3D none. */
  function Oriented(d: Dimension, parsed: seq<seq<int>>, nodes: seq<Node>): Result<seq<seq<int>>>
    requires OfWidth(parsed, NodesPerMainElement(d))
  {
    if d == TwoD then MeshConverter2D.FixedOrientation(parsed, nodes) else Ok(parsed)
  }

  /** The element parse of the loaded lines goes through and, after the dimension's fix against
      `nodes`, yields `mains`: the block scan succeeds, every element line of the wanted blocks
      is well formed and parsed into its slot, and the fix succeeds. */
  ghost predicate MainsParsed(d: Dimension, lines: seq<string>, parseInt: string -> Option<int>, es: nat, ee: int, nodes: seq<Node>, mains: seq<seq<int>>) {
    var fields := FieldsOf(lines);
    var scan := ElementRanges(lines, fields, parseInt, es + 2, ee, ElementType(d), 0);
    && scan.Ok?
    && AllElementLinesOk(fields, parseInt, scan.value, NodesPerMainElement(d))
    && exists parsed :: ElementsFilled(parsed, fields, parseInt, scan.value, NodesPerMainElement(d))
                        && Oriented(d, parsed, nodes) == Ok(mains)
  }

  /** Both parses of the loaded lines go through. */
  ghost predicate MeshParses(d: Dimension, lines: seq<string>, parseInt: string -> Option<int>, parseCoord: string -> Option<real>,
                             ns: nat, ne: int, es: nat, ee: int) {
    exists nodes, mains :: NodesParsed(lines, parseInt, parseCoord, ns, ne, nodes) && MainsParsed(d, lines, parseInt, es, ee, nodes, mains)
  }

  /** The conversion of the raw lines succeeds: the trimmed lines parse, with the section
      markers located from the given defaults, and every element index is at most the node
      count, so that the renumbering finds it. */
  ghost predicate ConversionSucceeds(d: Dimension, parseInt: string -> Option<int>, parseCoord: string -> Option<real>,
                                     rawLines: seq<string>, ns0: nat, ne0: nat, es0: nat, ee0: nat) {
    var lines := TrimAll(rawLines);
    var ns := LastIndexOr(lines, "$Nodes", ns0);
    var ne := LastIndexOr(lines, "$EndNodes", ne0);
    var es := LastIndexOr(lines, "$Elements", es0);
    var ee := LastIndexOr(lines, "$EndElements", ee0);
    exists nodes, mains :: NodesParsed(lines, parseInt, parseCoord, ns, ne, nodes)
                           && MainsParsed(d, lines, parseInt, es, ee, nodes, mains)
                           && IndicesWithin(mains, 0, |nodes|)
  }

  /** `out` is the MTC text of a mesh after the unused nodes are dropped: `boundary` is the
      boundary of `mains`, every index is at most the node count, and the output lays out the
      compacted nodes and both element lists renumbered. */
  ghost predicate CompactedLayout(d: Dimension, formatCoord: real -> string, nodes: seq<Node>, mains: seq<seq<int>>, boundary: seq<seq<int>>, out: seq<string>) {
    && OfWidth(mains, NodesPerMainElement(d))
    && OfWidth(boundary, NodesPerBoundaryElement(d))
    && IsBoundaryFor(d, boundary, mains)
    && IndicesWithin(mains, 0, |nodes|)
    && IndicesWithin(boundary, 0, |nodes|)
    && var used := UsedFlags(|nodes|, mains, boundary);
       exists kept :: CompactedBy(kept, nodes, used)
                      && out == MtcLines(d, formatCoord, kept, Renumbered(mains, Renumbering(used)), Renumbered(boundary, Renumbering(used)))
  }

  /** `out` is what converting the raw lines writes: the layout, after compaction, of the nodes
      and main elements parsed from the trimmed lines and of their boundary. */
  ghost predicate ConvertsTo(d: Dimension, parseInt: string -> Option<int>, parseCoord: string -> Option<real>, formatCoord: real -> string,
                             rawLines: seq<string>, ns0: nat, ne0: nat, es0: nat, ee0: nat, out: seq<string>) {
    var lines := TrimAll(rawLines);
    var ns := LastIndexOr(lines, "$Nodes", ns0);
    var ne := LastIndexOr(lines, "$EndNodes", ne0);
    var es := LastIndexOr(lines, "$Elements", es0);
    var ee := LastIndexOr(lines, "$EndElements", ee0);
    exists nodes, mains, boundary :: NodesParsed(lines, parseInt, parseCoord, ns, ne, nodes)
                                     && MainsParsed(d, lines, parseInt, es, ee, nodes, mains)
                                     && CompactedLayout(d, formatCoord, nodes, mains, boundary, out)
  }

  /** The node parse determines the node array. */
  lemma NodesParsedUnique(lines: seq<string>, parseInt: string -> Option<int>, parseCoord: string -> Option<real>, ns: nat, ne: int, a: seq<Node>, b: seq<Node>)
    requires NodesParsed(lines, parseInt, parseCoord, ns, ne, a) && NodesParsed(lines, parseInt, parseCoord, ns, ne, b)
    ensures a == b
  {
    var fields := FieldsOf(lines);
    NodeRangesLayout(lines, fields, parseInt, ns + 2, ne, 0);
    NodesFilledUnique(a, b, fields, NodeRanges(lines, fields, parseInt, ns + 2, ne, 0).value, parseCoord);
  }

  /** Two element arrays that both satisfy the fill specification are equal. */
  lemma ElementsFilledUnique(a: seq<seq<int>>, b: seq<seq<int>>, fields: seq<seq<string>>, parseInt: string -> Option<int>, rs: seq<Range>, width: nat)
    requires PrefixSums(rs, 0)
    requires ElementsFilled(a, fields, parseInt, rs, width) && ElementsFilled(b, fields, parseInt, rs, width)
    ensures a == b
  {
    forall j | 0 <= j < |a| ensures a[j] == b[j] {
      RangesCover(rs, 0, j);
      var k, i :| 0 <= k < |rs| && 0 <= i < rs[k].count && Slot(rs[k], i) == j;
      assert RangeOfElementsParsed(a, fields, parseInt, rs[k], width) && RangeOfElementsParsed(b, fields, parseInt, rs[k], width);
    }
  }

  /** The element parse determines the element array that was filled. */
  lemma ParsedElementsUnique(d: Dimension, lines: seq<string>, parseInt: string -> Option<int>, es: nat, ee: int, a: seq<seq<int>>, b: seq<seq<int>>)
    requires ElementRanges(lines, FieldsOf(lines), parseInt, es + 2, ee, ElementType(d), 0).Ok?
    requires ElementsFilled(a, FieldsOf(lines), parseInt, ElementRanges(lines, FieldsOf(lines), parseInt, es + 2, ee, ElementType(d), 0).value, NodesPerMainElement(d))
    requires ElementsFilled(b, FieldsOf(lines), parseInt, ElementRanges(lines, FieldsOf(lines), parseInt, es + 2, ee, ElementType(d), 0).value, NodesPerMainElement(d))
    ensures a == b
  {
    var fields := FieldsOf(lines);
    ElementRangesLayout(lines, fields, parseInt, es + 2, ee, ElementType(d), 0);
    ElementsFilledUnique(a, b, fields, parseInt, ElementRanges(lines, fields, parseInt, es + 2, ee, ElementType(d), 0).value, NodesPerMainElement(d));
  }

  /** When the filled array `parsed` fails the dimension's fix, no main element list is parsed
      from the lines. */
  lemma NoMainsParsed(d: Dimension, lines: seq<string>, parseInt: string -> Option<int>, es: nat, ee: int, nodes: seq<Node>, parsed: seq<seq<int>>)
    requires ElementRanges(lines, FieldsOf(lines), parseInt, es + 2, ee, ElementType(d), 0).Ok?
    requires ElementsFilled(parsed, FieldsOf(lines), parseInt, ElementRanges(lines, FieldsOf(lines), parseInt, es + 2, ee, ElementType(d), 0).value, NodesPerMainElement(d))
    requires Oriented(d, parsed, nodes).Err?
    ensures forall mains :: !MainsParsed(d, lines, parseInt, es, ee, nodes, mains)
  {
    forall mains | MainsParsed(d, lines, parseInt, es, ee, nodes, mains) ensures false {
      var fields := FieldsOf(lines);
      var rs := ElementRanges(lines, fields, parseInt, es + 2, ee, ElementType(d), 0).value;
      var p :| ElementsFilled(p, fields, parseInt, rs, NodesPerMainElement(d)) && Oriented(d, p, nodes) == Ok(mains);
      ParsedElementsUnique(d, lines, parseInt, es, ee, p, parsed);
    }
  }

  /** The element parse determines the main element list. */
  lemma MainsParsedUnique(d: Dimension, lines: seq<string>, parseInt: string -> Option<int>, es: nat, ee: int, nodes: seq<Node>, a: seq<seq<int>>, b: seq<seq<int>>)
    requires MainsParsed(d, lines, parseInt, es, ee, nodes, a) && MainsParsed(d, lines, parseInt, es, ee, nodes, b)
    ensures a == b
  {
    var fields := FieldsOf(lines);
    var rs := ElementRanges(lines, fields, parseInt, es + 2, ee, ElementType(d), 0).value;
    var p :| ElementsFilled(p, fields, parseInt, rs, NodesPerMainElement(d)) && Oriented(d, p, nodes) == Ok(a);
    var q :| ElementsFilled(q, fields, parseInt, rs, NodesPerMainElement(d)) && Oriented(d, q, nodes) == Ok(b);
    ParsedElementsUnique(d, lines, parseInt, es, ee, p, q);
  }

  /** The edges of triangles, and the faces of tetrahedra, repeat indices of their element. */
  lemma FacetsWithin(d: Dimension, mains: seq<seq<int>>, lo: int, hi: int)
    requires OfWidth(mains, NodesPerMainElement(d)) && IndicesWithin(mains, lo, hi)
    ensures d == TwoD ==> IndicesWithin(MeshConverter2D.AllEdges(mains), lo, hi)
    ensures d == ThreeD ==> IndicesWithin(MeshConverter3D.AllFaces(mains), lo, hi)
  {
    if d == TwoD {
      var facets := MeshConverter2D.AllEdges(mains);
      forall i, j | 0 <= i < |facets| && 0 <= j < |facets[i]| ensures lo <= facets[i][j] <= hi {
        var t, c := FacetSlot(i, 3);
        BoundaryCounting.AllFacetsAt(mains, MeshConverter2D.Edges, 3, t, c);
      }
    } else {
      var facets := MeshConverter3D.AllFaces(mains);
      forall i, j | 0 <= i < |facets| && 0 <= j < |facets[i]| ensures lo <= facets[i][j] <= hi {
        var t, c := FacetSlot(i, 4);
        BoundaryCounting.AllFacetsAt(mains, MeshConverter3D.Faces, 4, t, c);
      }
    }
  }

  /** Facet slot i of width-w groups is facet c of group t. */
  lemma FacetSlot(i: nat, w: nat) returns (t: nat, c: nat)
    requires w > 0
    ensures c < w && i == w * t + c
  {
    t, c := i / w, i % w;
  }

  /** Boundary facets are facets of the main elements, so their indices lie where the main
      elements' do. */
  lemma BoundaryWithin(d: Dimension, boundary: seq<seq<int>>, mains: seq<seq<int>>, lo: int, hi: int)
    requires OfWidth(mains, NodesPerMainElement(d)) && IsBoundaryFor(d, boundary, mains)
    requires IndicesWithin(mains, lo, hi)
    ensures IndicesWithin(boundary, lo, hi)
  {
    FacetsWithin(d, mains, lo, hi);
    var facets := if d == TwoD then MeshConverter2D.AllEdges(mains) else MeshConverter3D.AllFaces(mains);
    forall k, j | 0 <= k < |boundary| && 0 <= j < |boundary[k]| ensures lo <= boundary[k][j] <= hi {
      assert boundary[k] in boundary;
      assert boundary[k] in facets;
      var i :| 0 <= i < |facets| && facets[i] == boundary[k];
    }
  }

  /** The outcome of convert from the state its parse left (nodes, mains and boundary parsed
      from the trimmed lines) and from what the compaction reported. */
  lemma ConvertOutcome(d: Dimension, parseInt: string -> Option<int>, parseCoord: string -> Option<real>, formatCoord: real -> string,
                       rawLines: seq<string>, ns0: nat, ne0: nat, es0: nat, ee0: nat,
                       nodes: seq<Node>, mains: seq<seq<int>>, boundary: seq<seq<int>>, kept: seq<Node>, r: Result<seq<string>>)
    requires var lines := TrimAll(rawLines);
             && NodesParsed(lines, parseInt, parseCoord, LastIndexOr(lines, "$Nodes", ns0), LastIndexOr(lines, "$EndNodes", ne0), nodes)
             && MainsParsed(d, lines, parseInt, LastIndexOr(lines, "$Elements", es0), LastIndexOr(lines, "$EndElements", ee0), nodes, mains)
    requires OfWidth(mains, NodesPerMainElement(d)) && OfWidth(boundary, NodesPerBoundaryElement(d))
    requires IsBoundaryFor(d, boundary, mains)
    requires r.Ok? <==> IndicesWithin(mains, 0, |nodes|) && IndicesWithin(boundary, 0, |nodes|)
    requires r.Ok? ==> var used := UsedFlags(|nodes|, mains, boundary);
                       && CompactedBy(kept, nodes, used)
                       && r.value == MtcLines(d, formatCoord, kept, Renumbered(mains, Renumbering(used)), Renumbered(boundary, Renumbering(used)))
    ensures r.Ok? <==> ConversionSucceeds(d, parseInt, parseCoord, rawLines, ns0, ne0, es0, ee0)
    ensures r.Ok? ==> ConvertsTo(d, parseInt, parseCoord, formatCoord, rawLines, ns0, ne0, es0, ee0, r.value)
  {
    var lines := TrimAll(rawLines);
    var ns, ne := LastIndexOr(lines, "$Nodes", ns0), LastIndexOr(lines, "$EndNodes", ne0);
    var es, ee := LastIndexOr(lines, "$Elements", es0), LastIndexOr(lines, "$EndElements", ee0);
    if r.Ok? {
      assert CompactedLayout(d, formatCoord, nodes, mains, boundary, r.value);
    } else if ConversionSucceeds(d, parseInt, parseCoord, rawLines, ns0, ne0, es0, ee0) {
      var n', m' :| NodesParsed(lines, parseInt, parseCoord, ns, ne, n') && MainsParsed(d, lines, parseInt, es, ee, n', m')
                    && IndicesWithin(m', 0, |n'|);
      NodesParsedUnique(lines, parseInt, parseCoord, ns, ne, n', nodes);
      MainsParsedUnique(d, lines, parseInt, es, ee, nodes, m', mains);
      BoundaryWithin(d, boundary, mains, 0, |nodes|);
    }
  }

  // ---------- the converter ----------

  /** A converter for one dimension. Integer.parseInt, Double.parseDouble and the %.16f
      formatting are given as parameters; the factory passes JavaText.ParseInt as the first. */
  class MeshConverter {
    const dim: Dimension
    const parseInt: string -> Option<int>
    const parseCoord: string -> Option<real>
    const formatCoord: real -> string

    var lines: seq<string>
    /** The whitespace split of every loaded line (computed on demand by the source). */
    ghost var fields: seq<seq<string>>
    var nodesStart: int
    var nodesEnd: int
    var elementsStart: int
    var elementsEnd: int
    var nodes: array<Node>
    var mainElements: array<seq<int>>
    var boundaryElements: array<seq<int>>
    var oldToNewIndex: array<int>

    /** The element arrays are separate and every element has its dimension's width; the
        section markers are line indices or their initial 0. */
    ghost predicate Valid()
      reads this, mainElements, boundaryElements
    {
      && SplitsOf(lines, fields)
      && 0 <= nodesStart && 0 <= nodesEnd && 0 <= elementsStart && 0 <= elementsEnd
      && mainElements != boundaryElements
      && OfWidth(mainElements[..], NodesPerMainElement(dim))
      && OfWidth(boundaryElements[..], NodesPerBoundaryElement(dim))
    }

    constructor (dim: Dimension, parseInt: string -> Option<int>, parseCoord: string -> Option<real>, formatCoord: real -> string)
      ensures Valid()
      ensures this.dim == dim && this.parseInt == parseInt && this.parseCoord == parseCoord && this.formatCoord == formatCoord
      ensures lines == [] && nodesStart == 0 && nodesEnd == 0 && elementsStart == 0 && elementsEnd == 0
      ensures nodes.Length == 0 && mainElements.Length == 0 && boundaryElements.Length == 0
      ensures fresh(mainElements) && fresh(boundaryElements)
    {
      this.dim := dim;
      this.parseInt := parseInt;
      this.parseCoord := parseCoord;
      this.formatCoord := formatCoord;
      lines, fields := [], [];
      nodesStart, nodesEnd, elementsStart, elementsEnd := 0, 0, 0, 0;
      nodes := new Node[0];
      mainElements := new seq<int>[0];
      boundaryElements := new seq<int>[0];
      oldToNewIndex := new int[0];
    }

    /** loadFileAndLocateSections: trims every line and records the last index of each marker. */
    method LoadFileAndLocateSections(rawLines: seq<string>)
      requires Valid()
      modifies this`lines, this`fields, this`nodesStart, this`nodesEnd, this`elementsStart, this`elementsEnd
      ensures Valid()
      ensures lines == TrimAll(rawLines)
      ensures nodesStart == LastIndexOr(lines, "$Nodes", old(nodesStart))
      ensures nodesEnd == LastIndexOr(lines, "$EndNodes", old(nodesEnd))
      ensures elementsStart == LastIndexOr(lines, "$Elements", old(elementsStart))
      ensures elementsEnd == LastIndexOr(lines, "$EndElements", old(elementsEnd))
    {
      var trimmed, ns, ne, es, ee := LoadLines(rawLines, nodesStart, nodesEnd, elementsStart, elementsEnd);
      lines, nodesStart, nodesEnd, elementsStart, elementsEnd := trimmed, ns, ne, es, ee;
      fields := FieldsOf(trimmed);
    }

    /** The node count of the section header, as parseNodesParallel reads it. */
    method ReadNodeCount() returns (r: Result<nat>)
      requires SplitsOf(lines, fields)
      ensures r == NodeCount(fields, parseInt, nodesStart)
    {
      if !(0 <= nodesStart + 1 < |lines|) {
        return Err(MissingLine(nodesStart + 1));
      }
      var header := SplitWhitespace(lines[nodesStart + 1]);
      if |header| < 2 {
        return Err(MissingToken(1));
      }
      var parsed := parseInt(header[1]);
      if parsed.None? {
        return Err(NotAnInteger(header[1]));
      }
      if parsed.value < 0 {
        return Err(NegativeCount(parsed.value));
      }
      return Ok(parsed.value);
    }

    /** parseNodesParallel: reads the node count, scans the blocks and fills the node array
        from the coordinate lines. */
    method ParseNodes() returns (o: Outcome)
      requires Valid()
      modifies this`nodes
      ensures Valid()
      ensures NodeCount(fields, parseInt, nodesStart).Err? ==> o == Fail(NodeCount(fields, parseInt, nodesStart).error)
      ensures NodeCount(fields, parseInt, nodesStart).Ok? && NodeRanges(lines, fields, parseInt, nodesStart + 2, nodesEnd, 0).Err? ==>
                o == Fail(NodeRanges(lines, fields, parseInt, nodesStart + 2, nodesEnd, 0).error)
      ensures NodeCount(fields, parseInt, nodesStart).Ok? && NodeRanges(lines, fields, parseInt, nodesStart + 2, nodesEnd, 0).Ok? ==>
                var total := NodeCount(fields, parseInt, nodesStart).value;
                var rs := NodeRanges(lines, fields, parseInt, nodesStart + 2, nodesEnd, 0).value;
                && (o.Pass? <==> AllCoordinatesOk(fields, rs, total, parseCoord))
                && (o.Pass? ==> fresh(nodes) && nodes.Length == total && NodesFilled(nodes[..], fields, rs, parseCoord))
      ensures o.Pass? <==> NodesParse(lines, parseInt, parseCoord, nodesStart, nodesEnd)
      ensures o.Pass? ==> NodesParsed(lines, parseInt, parseCoord, nodesStart, nodesEnd, nodes[..])
    {
      SplitsAreFields(lines, fields);
      var count := ReadNodeCount();
      if count.Err? {
        return Fail(count.error);
      }
      var totalNodes := count.value;
      var scanned := ScanNodeBlocks(lines, fields, parseInt, nodesStart, nodesEnd);
      if scanned.Err? {
        return Fail(scanned.error);
      }
      var rs := scanned.value;
      NodeRangesLayout(lines, fields, parseInt, nodesStart + 2, nodesEnd, 0);
      var ok, filled := FillNodes(lines, fields, rs, totalNodes, parseCoord);
      if ok.Fail? {
        return ok;
      }
      nodes := filled;
      return Pass;
    }

    /** parseElements: scans the blocks and fills the main element array, whose size is the
        sum of the counts of the blocks of this dimension's element type. */
    method ParseElements() returns (o: Outcome)
      requires Valid()
      modifies this`mainElements
      ensures Valid()
      ensures o.Fail? ==> mainElements == old(mainElements)
      ensures o.Pass? ==> fresh(mainElements)
      ensures var scan := ElementRanges(lines, fields, parseInt, elementsStart + 2, elementsEnd, ElementType(dim), 0);
              && (scan.Err? ==> o == Fail(scan.error))
              && (scan.Ok? ==>
                    && (o.Pass? <==> AllElementLinesOk(fields, parseInt, scan.value, NodesPerMainElement(dim)))
                    && (o.Pass? ==> ElementsFilled(mainElements[..], fields, parseInt, scan.value, NodesPerMainElement(dim))))
    {
      var scanned, total := ScanElementBlocks(lines, fields, parseInt, elementsStart, elementsEnd, ElementType(dim));
      if scanned.Err? {
        return Fail(scanned.error);
      }
      var rs := scanned.value;
      var width := NodesPerMainElement(dim);
      ElementRangesLayout(lines, fields, parseInt, elementsStart + 2, elementsEnd, ElementType(dim), 0);
      var ok, filled := FillElements(lines, fields, parseInt, rs, total, width);
      if ok.Fail? {
        return ok;
      }
      mainElements := filled;
      return Pass;
    }

    /** parseElementsParallel: the element parse, followed in 2D by the orientation fix. A scan
        error or a malformed element line leaves the main element array as it was; a 2D
        orientation failure (the first triangle names a missing node) keeps the parsed array. */
    method ParseElementsParallel() returns (o: Outcome)
      requires Valid()
      modifies this`mainElements
      ensures Valid()
      ensures o.Pass? ==> fresh(mainElements)
      ensures o.Pass? <==> exists mains :: MainsParsed(dim, lines, parseInt, elementsStart, elementsEnd, nodes[..], mains)
      ensures o.Pass? ==> MainsParsed(dim, lines, parseInt, elementsStart, elementsEnd, nodes[..], mainElements[..])
      ensures var scan := ElementRanges(lines, fields, parseInt, elementsStart + 2, elementsEnd, ElementType(dim), 0);
              && (scan.Err? ==> o == Fail(scan.error) && mainElements == old(mainElements))
              && (scan.Ok? && !AllElementLinesOk(fields, parseInt, scan.value, NodesPerMainElement(dim)) ==>
                    o.Fail? && mainElements == old(mainElements))
              && (scan.Ok? && AllElementLinesOk(fields, parseInt, scan.value, NodesPerMainElement(dim)) && o.Fail? ==>
                    && dim == TwoD
                    && ElementsFilled(mainElements[..], fields, parseInt, scan.value, NodesPerMainElement(dim))
                    && MeshConverter2D.FixedOrientation(mainElements[..], nodes[..]) == Err(o.error))
    {
      SplitsAreFields(lines, fields);
      o := ParseElements();
      if o.Fail? {
        return;
      }
      ghost var parsed := mainElements[..];
      if dim == TwoD {
        o := MeshConverter2D.CheckAndFixNormals(mainElements, nodes);
        if o.Fail? {
          NoMainsParsed(dim, lines, parseInt, elementsStart, elementsEnd, nodes[..], parsed);
          return;
        }
      }
      assert Oriented(dim, parsed, nodes[..]) == Ok(mainElements[..]);
      assert MainsParsed(dim, lines, parseInt, elementsStart, elementsEnd, nodes[..], mainElements[..]);
    }

    /** detectBoundaryElements: the dimension's boundary facets. */
    method DetectBoundaryElements()
      requires Valid()
      modifies this`boundaryElements
      ensures Valid()
      ensures fresh(boundaryElements)
      ensures IsBoundaryFor(dim, boundaryElements[..], mainElements[..])
    {
      if dim == TwoD {
        boundaryElements := MeshConverter2D.DetectBoundaryElements(mainElements);
      } else {
        boundaryElements := MeshConverter3D.DetectBoundaryElements(mainElements);
      }
    }

    /** removeUnusedNodesParallel: marks the indices the elements name, numbers the used ones
        1.. in order, compacts the node array accordingly and renumbers every element in place.
        Returns the number of removed nodes. */
    method RemoveUnusedNodes() returns (o: Outcome, removedCount: int)
      requires Valid()
      modifies this`nodes, this`oldToNewIndex, mainElements, boundaryElements
      ensures Valid()
      ensures var n := old(nodes.Length);
              o.Pass? <==> IndicesWithin(old(mainElements[..]), 0, n) && IndicesWithin(old(boundaryElements[..]), 0, n)
      ensures o.Pass? ==>
                var n := old(nodes.Length);
                var used := UsedFlags(n, old(mainElements[..]), old(boundaryElements[..]));
                && fresh(nodes) && fresh(oldToNewIndex)
                && CompactedBy(nodes[..], old(nodes[..]), used)
                && removedCount == n - nodes.Length
                && oldToNewIndex[..] == Renumbering(used)
                && mainElements[..] == Renumbered(old(mainElements[..]), Renumbering(used))
                && boundaryElements[..] == Renumbered(old(boundaryElements[..]), Renumbering(used))
      ensures o.Fail? ==> mainElements[..] == old(mainElements[..]) && boundaryElements[..] == old(boundaryElements[..])
    {
      var newNodes, oldToNew;
      o, newNodes, oldToNew, removedCount := RemoveUnused(nodes, mainElements, boundaryElements);
      if o.Pass? {
        nodes, oldToNewIndex := newNodes, oldToNew;
      }
    }

    /** writeOutputParallel: builds the node, main and boundary strings and lays them out after
        the header. */
    method WriteOutput() returns (out: seq<string>)
      requires Valid()
      ensures out == MtcLines(dim, formatCoord, nodes[..], mainElements[..], boundaryElements[..])
    {
      out := WriteMtc(dim, formatCoord, nodes, mainElements, boundaryElements);
    }

    /** Drops the loaded lines once the output is written. */
    method ReleaseLines()
      requires Valid()
      modifies this`lines, this`fields
      ensures Valid() && lines == []
    {
      lines, fields := [], [];
    }

    /** The first four steps of convert: load and locate the sections, parse the nodes and
        the main elements, detect the boundary elements. It succeeds exactly when both parses
        of the trimmed lines go through, and then holds what they build. */
    method ParseMesh(rawLines: seq<string>) returns (o: Outcome)
      requires Valid()
      modifies this`lines, this`fields, this`nodesStart, this`nodesEnd, this`elementsStart, this`elementsEnd
      modifies this`nodes, this`mainElements, this`boundaryElements
      ensures Valid()
      ensures lines == TrimAll(rawLines)
      ensures nodesStart == LastIndexOr(lines, "$Nodes", old(nodesStart))
      ensures nodesEnd == LastIndexOr(lines, "$EndNodes", old(nodesEnd))
      ensures elementsStart == LastIndexOr(lines, "$Elements", old(elementsStart))
      ensures elementsEnd == LastIndexOr(lines, "$EndElements", old(elementsEnd))
      ensures o.Pass? <==> MeshParses(dim, lines, parseInt, parseCoord, nodesStart, nodesEnd, elementsStart, elementsEnd)
      ensures o.Pass? ==> NodesParsed(lines, parseInt, parseCoord, nodesStart, nodesEnd, nodes[..])
      ensures o.Pass? ==> MainsParsed(dim, lines, parseInt, elementsStart, elementsEnd, nodes[..], mainElements[..])
      ensures o.Pass? ==> fresh(mainElements) && fresh(boundaryElements)
      ensures o.Pass? ==> IsBoundaryFor(dim, boundaryElements[..], mainElements[..])
    {
      LoadFileAndLocateSections(rawLines);
      o := ParseSections();
    }

    /** Steps two to four of convert on the loaded lines: parse the nodes and the main
        elements, detect the boundary elements. It succeeds exactly when both parses go
        through, and then holds what they build. */
    method ParseSections() returns (o: Outcome)
      requires Valid()
      modifies this`nodes, this`mainElements, this`boundaryElements
      ensures Valid()
      ensures o.Pass? <==> MeshParses(dim, lines, parseInt, parseCoord, nodesStart, nodesEnd, elementsStart, elementsEnd)
      ensures o.Pass? ==> NodesParsed(lines, parseInt, parseCoord, nodesStart, nodesEnd, nodes[..])
      ensures o.Pass? ==> MainsParsed(dim, lines, parseInt, elementsStart, elementsEnd, nodes[..], mainElements[..])
      ensures o.Pass? ==> fresh(mainElements) && fresh(boundaryElements)
      ensures o.Pass? ==> IsBoundaryFor(dim, boundaryElements[..], mainElements[..])
    {
      o := ParseNodes();
      if o.Fail? {
        return;
      }
      ghost var parsedNodes := nodes[..];
      o := ParseElementsParallel();
      if o.Fail? {
        assert nodes[..] == parsedNodes;
        assert !exists mains :: MainsParsed(dim, lines, parseInt, elementsStart, elementsEnd, parsedNodes, mains);
        NoMeshParsed(dim, lines, parseInt, parseCoord, nodesStart, nodesEnd, elementsStart, elementsEnd, parsedNodes);
        return;
      }
      DetectBoundaryElements();
    }

    /** The last two steps of convert: drop the unused nodes and write the MTC lines; the
        loaded lines are released at the end. It fails exactly when an element index exceeds
        the node count; on success the new state is the compaction of the old one, every
        element index names one of the kept nodes (or is 0, which is never renumbered) and
        every kept node is named. */
    method FinishConversion() returns (r: Result<seq<string>>)
      requires Valid()
      modifies this`nodes, this`oldToNewIndex, this`lines, this`fields, mainElements, boundaryElements
      ensures Valid()
      ensures var n := old(nodes.Length);
              r.Ok? <==> IndicesWithin(old(mainElements[..]), 0, n) && IndicesWithin(old(boundaryElements[..]), 0, n)
      ensures r.Ok? ==>
                var used := UsedFlags(old(nodes.Length), old(mainElements[..]), old(boundaryElements[..]));
                && CompactedBy(nodes[..], old(nodes[..]), used)
                && mainElements[..] == Renumbered(old(mainElements[..]), Renumbering(used))
                && boundaryElements[..] == Renumbered(old(boundaryElements[..]), Renumbering(used))
      ensures r.Ok? ==> lines == []
      ensures r.Ok? ==> r.value == MtcLines(dim, formatCoord, nodes[..], mainElements[..], boundaryElements[..])
      ensures r.Ok? ==> IndicesWithin(mainElements[..], 0, nodes.Length) && IndicesWithin(boundaryElements[..], 0, nodes.Length)
      ensures r.Ok? ==> forall m :: 1 <= m <= nodes.Length ==> Refers(mainElements[..], m) || Refers(boundaryElements[..], m)
    {
      ghost var n := nodes.Length;
      ghost var mains := mainElements[..];
      ghost var bounds := boundaryElements[..];
      var o, removed := RemoveUnusedNodes();
      if o.Fail? {
        return Err(o.error);
      }
      CompactionResult(n, mains, bounds, nodes.Length, mainElements[..], boundaryElements[..]);
      var out := WriteOutput();
      ReleaseLines();
      return Ok(out);
    }

    /** convert: the six steps in order. It succeeds exactly when the conversion of the raw
        lines does, and the output is then the MTC layout, after compaction, of the nodes and
        elements parsed from them and of their boundary; it describes the final state, in
        which every element index names one of the kept nodes and every kept node is named. */
    method Convert(rawLines: seq<string>) returns (r: Result<seq<string>>)
      requires Valid()
      modifies this, mainElements, boundaryElements
      ensures Valid()
      ensures r.Ok? <==> ConversionSucceeds(dim, parseInt, parseCoord, rawLines, old(nodesStart), old(nodesEnd), old(elementsStart), old(elementsEnd))
      ensures r.Ok? ==> ConvertsTo(dim, parseInt, parseCoord, formatCoord, rawLines, old(nodesStart), old(nodesEnd), old(elementsStart), old(elementsEnd), r.value)
      ensures r.Ok? ==> lines == []
      ensures r.Ok? ==> r.value == MtcLines(dim, formatCoord, nodes[..], mainElements[..], boundaryElements[..])
      ensures r.Ok? ==> IndicesWithin(mainElements[..], 0, nodes.Length) && IndicesWithin(boundaryElements[..], 0, nodes.Length)
      ensures r.Ok? ==> forall m :: 1 <= m <= nodes.Length ==> Refers(mainElements[..], m) || Refers(boundaryElements[..], m)
    {
      ghost var ns0, ne0, es0, ee0: nat := nodesStart, nodesEnd, elementsStart, elementsEnd;
      var o := ParseMesh(rawLines);
      if o.Fail? {
        NotConverted(dim, parseInt, parseCoord, rawLines, ns0, ne0, es0, ee0);
        return Err(o.error);
      }
      ghost var parsedNodes, mains, bounds := nodes[..], mainElements[..], boundaryElements[..];
      r := FinishConversion();
      ConvertOutcome(dim, parseInt, parseCoord, formatCoord, rawLines, ns0, ne0, es0, ee0,
                     parsedNodes, mains, bounds, nodes[..], r);
    }
  }

  /** Once the nodes are parsed, a failing element parse means the mesh does not parse. */
  lemma NoMeshParsed(d: Dimension, lines: seq<string>, parseInt: string -> Option<int>, parseCoord: string -> Option<real>,
                     ns: nat, ne: int, es: nat, ee: int, nodes: seq<Node>)
    requires NodesParsed(lines, parseInt, parseCoord, ns, ne, nodes)
    requires forall mains :: !MainsParsed(d, lines, parseInt, es, ee, nodes, mains)
    ensures !MeshParses(d, lines, parseInt, parseCoord, ns, ne, es, ee)
  {
    if MeshParses(d, lines, parseInt, parseCoord, ns, ne, es, ee) {
      var n', m' :| NodesParsed(lines, parseInt, parseCoord, ns, ne, n') && MainsParsed(d, lines, parseInt, es, ee, n', m');
      NodesParsedUnique(lines, parseInt, parseCoord, ns, ne, n', nodes);
    }
  }

  /** A conversion that succeeds has a mesh that parses. */
  lemma NotConverted(d: Dimension, parseInt: string -> Option<int>, parseCoord: string -> Option<real>,
                     rawLines: seq<string>, ns0: nat, ne0: nat, es0: nat, ee0: nat)
    requires var lines := TrimAll(rawLines);
             !MeshParses(d, lines, parseInt, parseCoord, LastIndexOr(lines, "$Nodes", ns0), LastIndexOr(lines, "$EndNodes", ne0),
                         LastIndexOr(lines, "$Elements", es0), LastIndexOr(lines, "$EndElements", ee0))
    ensures !ConversionSucceeds(d, parseInt, parseCoord, rawLines, ns0, ne0, es0, ee0)
  {
  }

  // ---------- helpers of the imperative steps ----------

  /** The checks of one iteration of the node block scan, at line lineIdx: a missing line,
      a line that ends the scan, a short header, a count that is not an integer or is
      negative, or else the block's node count. */
  method ReadNodeBlockHeader(lines: seq<string>, ghost fields: seq<seq<string>>, parseInt: string -> Option<int>, nodesEnd: int, lineIdx: int, target: nat) returns (h: BlockHeader)
    requires 0 <= lineIdx < nodesEnd && SplitsOf(lines, fields)
    ensures h.NoBlock? ==> NodeRanges(lines, fields, parseInt, lineIdx, nodesEnd, target) == Ok([])
    ensures h.BadHeader? ==> NodeRanges(lines, fields, parseInt, lineIdx, nodesEnd, target) == Err(h.error)
    ensures h.Header? ==>
              NodeRanges(lines, fields, parseInt, lineIdx, nodesEnd, target) ==
              Prepend([Range(lineIdx + 1 + h.count, h.count, target)], NodeRanges(lines, fields, parseInt, lineIdx + 1 + 2 * h.count, nodesEnd, target + h.count))
  {
    if lineIdx >= |lines| {
      return BadHeader(MissingLine(lineIdx));
    }
    var line := lines[lineIdx];
    if EndsScan(line) {
      return NoBlock;
    }
    var blockHeader := SplitWhitespace(line);
    if |blockHeader| < 4 {
      return NoBlock;
    }
    var parsed := parseInt(blockHeader[3]);
    if parsed.None? {
      return BadHeader(NotAnInteger(blockHeader[3]));
    }
    if parsed.value < 0 {
      return BadHeader(NegativeCount(parsed.value));
    }
    return Header(0, parsed.value);
  }

  /** Phase 1 of parseNodesParallel: the block scan. */
  method ScanNodeBlocks(lines: seq<string>, ghost fields: seq<seq<string>>, parseInt: string -> Option<int>, nodesStart: int, nodesEnd: int) returns (r: Result<seq<Range>>)
    requires 0 <= nodesStart && SplitsOf(lines, fields)
    ensures r == NodeRanges(lines, fields, parseInt, nodesStart + 2, nodesEnd, 0)
  {
    var ranges: seq<Range> := [];
    var lineIdx := nodesStart + 2;
    var target: nat := 0;
    ghost var whole := NodeRanges(lines, fields, parseInt, lineIdx, nodesEnd, target);
    PrependNil(whole);
    while lineIdx < nodesEnd
      invariant 0 <= lineIdx
      invariant whole == Prepend(ranges, NodeRanges(lines, fields, parseInt, lineIdx, nodesEnd, target))
      decreases nodesEnd - lineIdx
    {
      var h := ReadNodeBlockHeader(lines, fields, parseInt, nodesEnd, lineIdx, target);
      if h.NoBlock? {
        break;
      }
      if h.BadHeader? {
        return Err(h.error);
      }
      var numNodesInBlock := h.count;
      lineIdx := lineIdx + 1 + numNodesInBlock;
      PrependAssoc(ranges, Range(lineIdx, numNodesInBlock, target), NodeRanges(lines, fields, parseInt, lineIdx + numNodesInBlock, nodesEnd, target + numNodesInBlock));
      ranges := ranges + [Range(lineIdx, numNodesInBlock, target)];
      target := target + numNodesInBlock;
      lineIdx := lineIdx + numNodesInBlock;
    }
    PrependEmpty(ranges);
    return Ok(ranges);
  }

  /** The checks of one iteration of the element block scan, at line lineIdx; on a header,
      its element type and count. */
  method ReadElementBlockHeader(lines: seq<string>, ghost fields: seq<seq<string>>, parseInt: string -> Option<int>, elementsEnd: int, lineIdx: int, elementType: int, total: nat) returns (h: BlockHeader)
    requires 0 <= lineIdx < elementsEnd && SplitsOf(lines, fields)
    ensures h.NoBlock? ==> ElementRanges(lines, fields, parseInt, lineIdx, elementsEnd, elementType, total) == Ok([])
    ensures h.BadHeader? ==> ElementRanges(lines, fields, parseInt, lineIdx, elementsEnd, elementType, total) == Err(h.error)
    ensures h.Header? ==>
              ElementRanges(lines, fields, parseInt, lineIdx, elementsEnd, elementType, total) ==
              (if h.elementType == elementType
              then Prepend([Range(lineIdx + 1, h.count, total)], ElementRanges(lines, fields, parseInt, lineIdx + 1 + h.count, elementsEnd, elementType, total + h.count))
              else ElementRanges(lines, fields, parseInt, lineIdx + 1 + h.count, elementsEnd, elementType, total))
  {
    if lineIdx >= |lines| {
      return BadHeader(MissingLine(lineIdx));
    }
    var line := lines[lineIdx];
    if EndsScan(line) {
      return NoBlock;
    }
    var blockHeader := SplitWhitespace(line);
    if |blockHeader| < 4 {
      return NoBlock;
    }
    var parsedType := parseInt(blockHeader[2]);
    if parsedType.None? {
      return BadHeader(NotAnInteger(blockHeader[2]));
    }
    var parsedCount := parseInt(blockHeader[3]);
    if parsedCount.None? {
      return BadHeader(NotAnInteger(blockHeader[3]));
    }
    if parsedCount.value < 0 {
      return BadHeader(NegativeCount(parsedCount.value));
    }
    return Header(parsedType.value, parsedCount.value);
  }

  /** Phase 1 of parseElements: the block scan. */
  method ScanElementBlocks(lines: seq<string>, ghost fields: seq<seq<string>>, parseInt: string -> Option<int>, elementsStart: int, elementsEnd: int, et: int) returns (r: Result<seq<Range>>, totalElement: nat)
    requires 0 <= elementsStart && SplitsOf(lines, fields)
    ensures r == ElementRanges(lines, fields, parseInt, elementsStart + 2, elementsEnd, et, 0)
    ensures r.Ok? ==> totalElement == TotalCount(r.value)
  {
    var ranges: seq<Range> := [];
    totalElement := 0;
    var lineIdx := elementsStart + 2;
    ghost var whole := ElementRanges(lines, fields, parseInt, lineIdx, elementsEnd, et, totalElement);
    PrependNil(whole);
    while lineIdx < elementsEnd
      invariant 0 <= lineIdx
      invariant totalElement == TotalCount(ranges)
      invariant whole == Prepend(ranges, ElementRanges(lines, fields, parseInt, lineIdx, elementsEnd, et, totalElement))
      decreases elementsEnd - lineIdx
    {
      var h := ReadElementBlockHeader(lines, fields, parseInt, elementsEnd, lineIdx, et, totalElement);
      if h.NoBlock? {
        break;
      }
      if h.BadHeader? {
        return Err(h.error), totalElement;
      }
      var numElements := h.count;
      if h.elementType == et {
        var r := Range(lineIdx + 1, numElements, totalElement);
        PrependAssoc(ranges, r, ElementRanges(lines, fields, parseInt, lineIdx + 1 + numElements, elementsEnd, et, totalElement + numElements));
        TotalCountSnoc(ranges, r);
        ranges := ranges + [r];
        totalElement := totalElement + numElements;
      }
      lineIdx := lineIdx + 1 + numElements;
    }
    PrependEmpty(ranges);
    return Ok(ranges), totalElement;
  }

  lemma PrependNil(r: Result<seq<Range>>)
    ensures Prepend([], r) == r
  {
    if r.Ok? {
      assert [] + r.value == r.value;
    }
  }

  lemma PrependEmpty(rs: seq<Range>)
    ensures Prepend(rs, Ok([])) == Ok(rs)
  {
    assert rs + [] == rs;
  }

  lemma PrependAssoc(rs: seq<Range>, r: Range, rest: Result<seq<Range>>)
    ensures Prepend(rs, Prepend([r], rest)) == Prepend(rs + [r], rest)
  {
    if rest.Ok? {
      assert rs + ([r] + rest.value) == (rs + [r]) + rest.value;
    }
  }

  lemma NotAllCoordinatesOk(fields: seq<seq<string>>, rs: seq<Range>, total: nat, parseCoord: string -> Option<real>, k: int, i: int)
    requires 0 <= k < |rs| && 0 <= i < rs[k].count
    requires !CoordinateLineOk(fields, rs[k], i, total, parseCoord)
    ensures !AllCoordinatesOk(fields, rs, total, parseCoord)
  {
  }

  lemma NotAllElementLinesOk(fields: seq<seq<string>>, parseInt: string -> Option<int>, rs: seq<Range>, width: nat, k: int, i: int)
    requires 0 <= k < |rs| && 0 <= i < rs[k].count
    requires !ElementLineOk(fields, parseInt, rs[k], i, width)
    ensures !AllElementLinesOk(fields, parseInt, rs, width)
  {
  }

  /** Phase 2 of parseNodesParallel: a zeroed node array of the announced size, and every
      range's coordinate lines parsed into their slots. The ranges never share a slot, so the
      order in which the source's parallel tasks run does not matter (NodesFilledUnique). */
  method FillNodes(lines: seq<string>, ghost fields: seq<seq<string>>, rs: seq<Range>, totalNodes: nat, parseCoord: string -> Option<real>)
    returns (o: Outcome, filled: array<Node>)
    requires SplitsOf(lines, fields) && PrefixSums(rs, 0)
    ensures fresh(filled) && filled.Length == totalNodes
    ensures o.Pass? <==> AllCoordinatesOk(fields, rs, totalNodes, parseCoord)
    ensures o.Pass? ==> NodesFilled(filled[..], fields, rs, parseCoord)
  {
    filled := new Node[totalNodes](_ => Origin);
    var k := 0;
    while k < |rs|
      invariant 0 <= k <= |rs|
      invariant forall k' :: 0 <= k' < k ==> RangeOfNodesParsed(filled[..], fields, rs[k'], parseCoord)
      invariant forall j :: TotalCount(rs[..k]) <= j < totalNodes ==> filled[j] == Origin
    {
      var r := rs[k];
      ghost var before := filled[..];
      var ok := ParseNodeRange(filled, lines, fields, r, parseCoord);
      if ok.Fail? {
        ghost var i :| 0 <= i < r.count && !CoordinateLineOk(fields, r, i, totalNodes, parseCoord);
        NotAllCoordinatesOk(fields, rs, totalNodes, parseCoord, k, i);
        return ok, filled;
      }
      FillNodesStep(before, filled[..], fields, rs, k, parseCoord);
      k := k + 1;
    }
    assert rs[..|rs|] == rs;
    return Pass, filled;
  }

  /** The bookkeeping of one FillNodes round: parsing range k into its own slots keeps the
      earlier ranges parsed and the slots past range k untouched. */
  lemma FillNodesStep(before: seq<Node>, after: seq<Node>, fields: seq<seq<string>>, rs: seq<Range>, k: nat, parseCoord: string -> Option<real>)
    requires PrefixSums(rs, 0) && k < |rs| && |before| == |after|
    requires forall k' :: 0 <= k' < k ==> RangeOfNodesParsed(before, fields, rs[k'], parseCoord)
    requires forall j :: TotalCount(rs[..k]) <= j < |before| ==> before[j] == Origin
    requires RangeOfNodesParsed(after, fields, rs[k], parseCoord)
    requires forall j :: 0 <= j < |after| && !(rs[k].target <= j < rs[k].target + rs[k].count) ==> after[j] == before[j]
    ensures forall k' :: 0 <= k' < k + 1 ==> RangeOfNodesParsed(after, fields, rs[k'], parseCoord)
    ensures forall j :: TotalCount(rs[..k + 1]) <= j < |after| ==> after[j] == Origin
  {
    assert rs[..k + 1] == rs[..k] + [rs[k]];
    TotalCountSnoc(rs[..k], rs[k]);
    forall k' | 0 <= k' < k ensures RangeOfNodesParsed(after, fields, rs[k'], parseCoord) {
      RangesDisjoint(rs, 0, k', k);
      RangeOfNodesParsedFrame(before, after, fields, rs[k'], rs[k], parseCoord);
    }
  }

  /** Phase 2 of parseElements: an element array of the total size, and every range's
      element lines parsed into their slots. */
  method FillElements(lines: seq<string>, ghost fields: seq<seq<string>>, parseInt: string -> Option<int>, rs: seq<Range>, total: nat, width: nat)
    returns (o: Outcome, filled: array<seq<int>>)
    requires SplitsOf(lines, fields) && PrefixSums(rs, 0) && total == TotalCount(rs)
    ensures fresh(filled)
    ensures o.Pass? <==> AllElementLinesOk(fields, parseInt, rs, width)
    ensures o.Pass? ==> ElementsFilled(filled[..], fields, parseInt, rs, width)
  {
    filled := new seq<int>[total](_ => Zeros(width));
    var k := 0;
    while k < |rs|
      invariant 0 <= k <= |rs|
      invariant OfWidth(filled[..], width)
      invariant forall k' :: 0 <= k' < k ==> RangeOfElementsParsed(filled[..], fields, parseInt, rs[k'], width)
    {
      var r := rs[k];
      RangeWithinTotal(rs, 0, k);
      assert rs[..|rs|] == rs;
      ghost var before := filled[..];
      var ok := ParseElementRange(filled, lines, fields, parseInt, r, width);
      if ok.Fail? {
        ghost var i :| 0 <= i < r.count && !ElementLineOk(fields, parseInt, r, i, width);
        NotAllElementLinesOk(fields, parseInt, rs, width, k, i);
        return ok, filled;
      }
      FillElementsStep(before, filled[..], fields, parseInt, rs, k, width);
      k := k + 1;
    }
    return Pass, filled;
  }

  /** The bookkeeping of one FillElements round: parsing range k keeps the earlier ranges
      parsed. */
  lemma FillElementsStep(before: seq<seq<int>>, after: seq<seq<int>>, fields: seq<seq<string>>, parseInt: string -> Option<int>, rs: seq<Range>, k: nat, width: nat)
    requires PrefixSums(rs, 0) && k < |rs| && |before| == |after|
    requires forall k' :: 0 <= k' < k ==> RangeOfElementsParsed(before, fields, parseInt, rs[k'], width)
    requires forall j :: 0 <= j < |after| && !(rs[k].target <= j < rs[k].target + rs[k].count) ==> after[j] == before[j]
    ensures forall k' :: 0 <= k' < k ==> RangeOfElementsParsed(after, fields, parseInt, rs[k'], width)
  {
    forall k' | 0 <= k' < k ensures RangeOfElementsParsed(after, fields, parseInt, rs[k'], width) {
      RangesDisjoint(rs, 0, k', k);
      RangeOfElementsParsedFrame(before, after, fields, parseInt, rs[k'], rs[k], width);
    }
  }

  /** One task of the parallel node parse: the coordinate lines of one block into their
      slots. Writes no slot outside the range. */
  method ParseNodeRange(filled: array<Node>, lines: seq<string>, ghost fields: seq<seq<string>>, r: Range, parseCoord: string -> Option<real>)
    returns (o: Outcome)
    requires SplitsOf(lines, fields)
    modifies filled
    ensures o.Pass? <==> forall i :: 0 <= i < r.count ==> CoordinateLineOk(fields, r, i, filled.Length, parseCoord)
    ensures o.Pass? ==> RangeOfNodesParsed(filled[..], fields, r, parseCoord)
    ensures forall j :: 0 <= j < filled.Length && !(r.target <= j < r.target + r.count) ==> filled[j] == old(filled[j])
  {
    var i := 0;
    while i < r.count
      invariant 0 <= i <= r.count
      invariant forall i' :: 0 <= i' < i ==>
                  CoordinateLineOk(fields, r, i', filled.Length, parseCoord) &&
                  filled[Slot(r, i')] == CoordinatesOf(fields[LineOf(r, i')], parseCoord).value
      invariant forall j :: 0 <= j < filled.Length && !(r.target <= j < r.target + r.count) ==> filled[j] == old(filled[j])
    {
      var li := LineOf(r, i);
      if !(0 <= li < |lines|) {
        assert !CoordinateLineOk(fields, r, i, filled.Length, parseCoord);
        return Fail(MissingLine(li));
      }
      var c := CoordinatesOf(SplitWhitespace(lines[li]), parseCoord);
      if c.Err? {
        assert !CoordinateLineOk(fields, r, i, filled.Length, parseCoord);
        return Fail(c.error);
      }
      if Slot(r, i) >= filled.Length {
        assert !CoordinateLineOk(fields, r, i, filled.Length, parseCoord);
        return Fail(IndexOutOfRange(Slot(r, i)));
      }
      filled[Slot(r, i)] := c.value;
      i := i + 1;
    }
    return Pass;
  }

  /** A range's parsed slots survive writes outside them. */
  lemma RangeOfNodesParsedFrame(a: seq<Node>, b: seq<Node>, fields: seq<seq<string>>, q: Range, r: Range, parseCoord: string -> Option<real>)
    requires |a| == |b|
    requires RangeOfNodesParsed(a, fields, q, parseCoord)
    requires q.target + q.count <= r.target
    requires forall j :: 0 <= j < |a| && !(r.target <= j < r.target + r.count) ==> b[j] == a[j]
    ensures RangeOfNodesParsed(b, fields, q, parseCoord)
  {
    forall i | 0 <= i < q.count
      ensures CoordinateLineOk(fields, q, i, |b|, parseCoord) && b[Slot(q, i)] == CoordinatesOf(fields[LineOf(q, i)], parseCoord).value
    {
      assert CoordinateLineOk(fields, q, i, |a|, parseCoord);
    }
  }

  /** One task of the element parse: the element lines of one block into their slots. */
  method ParseElementRange(filled: array<seq<int>>, lines: seq<string>, ghost fields: seq<seq<string>>, parseInt: string -> Option<int>, r: Range, width: nat)
    returns (o: Outcome)
    requires SplitsOf(lines, fields)
    requires r.target + r.count <= filled.Length
    requires OfWidth(filled[..], width)
    modifies filled
    ensures OfWidth(filled[..], width)
    ensures o.Pass? <==> forall i :: 0 <= i < r.count ==> ElementLineOk(fields, parseInt, r, i, width)
    ensures o.Pass? ==> RangeOfElementsParsed(filled[..], fields, parseInt, r, width)
    ensures forall j :: 0 <= j < filled.Length && !(r.target <= j < r.target + r.count) ==> filled[j] == old(filled[j])
  {
    var i := 0;
    while i < r.count
      invariant 0 <= i <= r.count
      invariant OfWidth(filled[..], width)
      invariant forall i' :: 0 <= i' < i ==>
                  ElementLineOk(fields, parseInt, r, i', width) &&
                  filled[Slot(r, i')] == ElementOf(fields[LineOf(r, i')], width, parseInt).value
      invariant forall j :: 0 <= j < filled.Length && !(r.target <= j < r.target + r.count) ==> filled[j] == old(filled[j])
    {
      var li := LineOf(r, i);
      if !(0 <= li < |lines|) {
        assert !ElementLineOk(fields, parseInt, r, i, width);
        return Fail(MissingLine(li));
      }
      var e := ElementOf(SplitWhitespace(lines[li]), width, parseInt);
      if e.Err? {
        assert !ElementLineOk(fields, parseInt, r, i, width);
        return Fail(e.error);
      }
      filled[Slot(r, i)] := e.value;
      i := i + 1;
    }
    return Pass;
  }

  lemma RangeOfElementsParsedFrame(a: seq<seq<int>>, b: seq<seq<int>>, fields: seq<seq<string>>, parseInt: string -> Option<int>, q: Range, r: Range, width: nat)
    requires |a| == |b|
    requires RangeOfElementsParsed(a, fields, parseInt, q, width)
    requires q.target + q.count <= r.target
    requires forall j :: 0 <= j < |a| && !(r.target <= j < r.target + r.count) ==> b[j] == a[j]
    ensures RangeOfElementsParsed(b, fields, parseInt, q, width)
  {
    forall i | 0 <= i < q.count
      ensures ElementLineOk(fields, parseInt, q, i, width) && 0 <= Slot(q, i) < |b| && b[Slot(q, i)] == ElementOf(fields[LineOf(q, i)], width, parseInt).value
    {
      assert ElementLineOk(fields, parseInt, q, i, width) && 0 <= Slot(q, i) < |a|;
    }
  }

  lemma RefersSnoc(elems: seq<seq<int>>, e: seq<int>, v: int)
    ensures Refers(elems + [e], v) <==> Refers(elems, v) || v in e
  {
    var all := elems + [e];
    if v in e {
      var j :| 0 <= j < |e| && e[j] == v;
      assert all[|elems|][j] == v;
    }
    if Refers(elems, v) {
      var k, j :| 0 <= k < |elems| && 0 <= j < |elems[k]| && elems[k][j] == v;
      assert all[k][j] == v;
    }
    if Refers(all, v) {
      var k, j :| 0 <= k < |all| && 0 <= j < |all[k]| && all[k][j] == v;
      if k < |elems| { assert elems[k][j] == v; } else { assert e[j] == v; }
    }
  }

  /** The marking pass: sets used[idx] for every index of every element; reports an index
      outside the array (the ArrayIndexOutOfBoundsException of the source). */
  method MarkUsed(used: array<bool>, elems: array<seq<int>>) returns (bad: Option<int>)
    modifies used
    ensures bad.None? <==> IndicesWithin(elems[..], 0, used.Length - 1)
    ensures bad.Some? ==> !(0 <= bad.value < used.Length) && Refers(elems[..], bad.value)
    ensures bad.None? ==> forall v :: 0 <= v < used.Length ==> (used[v] <==> old(used[v]) || Refers(elems[..], v))
  {
    var k := 0;
    while k < elems.Length
      invariant 0 <= k <= elems.Length
      invariant IndicesWithin(elems[..k], 0, used.Length - 1)
      invariant forall v :: 0 <= v < used.Length ==> (used[v] <==> old(used[v]) || Refers(elems[..k], v))
    {
      var e := elems[k];
      var j := 0;
      while j < |e|
        invariant 0 <= j <= |e|
        invariant forall t :: 0 <= t < j ==> 0 <= e[t] < used.Length
        invariant forall v :: 0 <= v < used.Length ==> (used[v] <==> old(used[v]) || Refers(elems[..k], v) || v in e[..j])
      {
        var idx := e[j];
        if !(0 <= idx < used.Length) {
          assert elems[..][k][j] == idx;
          return Some(idx);
        }
        used[idx] := true;
        assert e[..j + 1] == e[..j] + [idx];
        j := j + 1;
      }
      assert e[..|e|] == e;
      assert elems[..k + 1] == elems[..k] + [e];
      forall v | 0 <= v < used.Length ensures Refers(elems[..k + 1], v) <==> Refers(elems[..k], v) || v in e {
        RefersSnoc(elems[..k], e, v);
      }
      k := k + 1;
    }
    assert elems[..k] == elems[..];
    return None;
  }

  /** The body of removeUnusedNodesParallel over the three arrays: marks the indices the
      elements name, numbers the used ones 1.. in order, compacts the node array into a new
      one and renumbers every element in place. */
  method RemoveUnused(nodes: array<Node>, mains: array<seq<int>>, bounds: array<seq<int>>)
    returns (o: Outcome, newNodes: array<Node>, oldToNew: array<int>, removedCount: int)
    requires mains != bounds
    modifies mains, bounds
    ensures var n := nodes.Length;
            o.Pass? <==> IndicesWithin(old(mains[..]), 0, n) && IndicesWithin(old(bounds[..]), 0, n)
    ensures o.Pass? ==>
              var n := nodes.Length;
              var used := UsedFlags(n, old(mains[..]), old(bounds[..]));
              && fresh(newNodes) && fresh(oldToNew)
              && CompactedBy(newNodes[..], nodes[..], used)
              && removedCount == n - newNodes.Length
              && oldToNew[..] == Renumbering(used)
              && mains[..] == Renumbered(old(mains[..]), Renumbering(used))
              && bounds[..] == Renumbered(old(bounds[..]), Renumbering(used))
    ensures o.Fail? ==> mains[..] == old(mains[..]) && bounds[..] == old(bounds[..])
  {
    newNodes, oldToNew := nodes, new int[0];
    var maxNodeIndex := nodes.Length;
    var used := new bool[maxNodeIndex + 1](_ => false);
    var bad := MarkUsed(used, mains);
    if bad.Some? {
      return Fail(IndexOutOfRange(bad.value)), newNodes, oldToNew, 0;
    }
    bad := MarkUsed(used, bounds);
    if bad.Some? {
      return Fail(IndexOutOfRange(bad.value)), newNodes, oldToNew, 0;
    }
    FlagsAreUsedFlags(used[..], maxNodeIndex, mains[..], bounds[..]);
    newNodes, oldToNew, removedCount := CompactAndRenumber(nodes, used, mains, bounds);
    return Pass, newNodes, oldToNew, removedCount;
  }

  /** The steps of removeUnusedNodesParallel after the marking: number the used indices,
      compact the node array, rewrite both element arrays. */
  method CompactAndRenumber(nodes: array<Node>, used: array<bool>, mains: array<seq<int>>, bounds: array<seq<int>>)
    returns (newNodes: array<Node>, oldToNew: array<int>, removedCount: int)
    requires mains != bounds && used.Length == nodes.Length + 1
    requires IndicesWithin(mains[..], 0, nodes.Length) && IndicesWithin(bounds[..], 0, nodes.Length)
    modifies mains, bounds
    ensures fresh(newNodes) && fresh(oldToNew)
    ensures CompactedBy(newNodes[..], nodes[..], used[..])
    ensures removedCount == nodes.Length - newNodes.Length
    ensures oldToNew[..] == Renumbering(used[..])
    ensures mains[..] == Renumbered(old(mains[..]), Renumbering(used[..]))
    ensures bounds[..] == Renumbered(old(bounds[..]), Renumbering(used[..]))
  {
    var newCount;
    oldToNew, newCount := NumberUsed(used);
    removedCount := nodes.Length - newCount;
    newNodes := CompactNodes(nodes, used, oldToNew, newCount);
    RenumberInPlace(mains, oldToNew);
    RenumberInPlace(bounds, oldToNew);
  }

  /** The numbering pass of removeUnusedNodesParallel: a running counter gives every used
      index i >= 1 its rank; the other slots keep the 0 they were allocated with. */
  method NumberUsed(used: array<bool>) returns (oldToNew: array<int>, newCount: nat)
    requires used.Length >= 1
    ensures fresh(oldToNew)
    ensures oldToNew[..] == Renumbering(used[..])
    ensures newCount == CountUsed(used[..], used.Length)
  {
    ghost var flags := used[..];
    oldToNew := new int[used.Length](_ => 0);
    newCount := 0;
    var i := 1;
    while i < used.Length
      invariant 1 <= i <= used.Length
      invariant newCount == CountUsed(flags, i)
      invariant forall j :: 0 <= j < i ==> oldToNew[j] == Renumbering(flags)[j]
      invariant forall j :: i <= j < used.Length ==> oldToNew[j] == 0
    {
      if used[i] {
        newCount := newCount + 1;
        oldToNew[i] := newCount;
      }
      i := i + 1;
    }
    assert oldToNew[..] == Renumbering(flags);
  }

  /** The compaction pass: every used node moves to its new number's slot. */
  method CompactNodes(nodes: array<Node>, used: array<bool>, oldToNew: array<int>, newCount: nat) returns (newNodes: array<Node>)
    requires used.Length == nodes.Length + 1
    requires oldToNew[..] == Renumbering(used[..]) && newCount == CountUsed(used[..], used.Length)
    ensures fresh(newNodes) && newNodes.Length == newCount
    ensures CompactedBy(newNodes[..], nodes[..], used[..])
  {
    ghost var flags := used[..];
    ghost var ranks := Renumbering(flags);
    newNodes := new Node[newCount](_ => Origin);
    var i := 1;
    while i < used.Length
      invariant 1 <= i <= used.Length
      invariant forall j :: 1 <= j < i && flags[j] ==> newNodes[ranks[j] - 1] == nodes[j - 1]
    {
      if used[i] {
        assert flags[i] && oldToNew[i] == ranks[i];
        RanksBelow(flags, i);
        newNodes[oldToNew[i] - 1] := nodes[i - 1];
      }
      i := i + 1;
    }
  }

  /** The in-place renumbering: elem[i] := oldToNew[elem[i]] for every slot of every element. */
  method RenumberInPlace(elems: array<seq<int>>, oldToNew: array<int>)
    requires IndicesWithin(elems[..], 0, oldToNew.Length - 1)
    modifies elems
    ensures elems[..] == Renumbered(old(elems[..]), oldToNew[..])
  {
    var k := 0;
    while k < elems.Length
      invariant 0 <= k <= elems.Length
      invariant forall t :: 0 <= t < k ==> elems[t] == Renumbered(old(elems[..]), oldToNew[..])[t]
      invariant forall t :: k <= t < elems.Length ==> elems[t] == old(elems[t])
    {
      var e := elems[k];
      ghost var original := e;
      assert original == old(elems[..])[k];
      var j := 0;
      while j < |e|
        invariant 0 <= j <= |e| && |e| == |original|
        invariant forall t :: 0 <= t < j ==> e[t] == oldToNew[original[t]]
        invariant forall t :: j <= t < |e| ==> e[t] == original[t]
      {
        e := e[j := oldToNew[e[j]]];
        j := j + 1;
      }
      elems[k] := e;
      k := k + 1;
    }
  }

  /** Every line of range r parses as an element, and the element array holds it at the
      line's slot. */
  ghost predicate RangeOfElementsParsed(elems: seq<seq<int>>, fields: seq<seq<string>>, parseInt: string -> Option<int>, r: Range, width: nat) {
    forall i :: 0 <= i < r.count ==>
      && ElementLineOk(fields, parseInt, r, i, width)
      && 0 <= Slot(r, i) < |elems|
      && elems[Slot(r, i)] == ElementOf(fields[LineOf(r, i)], width, parseInt).value
  }

  /** The main element array after the parse: its size is the total of the wanted blocks and
      every range has been parsed into its slots (which, by the layout of the ranges, are all
      the slots). */
  ghost predicate ElementsFilled(elems: seq<seq<int>>, fields: seq<seq<string>>, parseInt: string -> Option<int>, rs: seq<Range>, width: nat) {
    && |elems| == TotalCount(rs)
    && OfWidth(elems, width)
    && forall k :: 0 <= k < |rs| ==> RangeOfElementsParsed(elems, fields, parseInt, rs[k], width)
  }
}
