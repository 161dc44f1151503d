# Rdyali mesh core in Dafny

This project models the mesh core of Rdyali, a JavaFX front end for CFD computations.
It covers five parts of that core.

- **GMSH v4 to MTC conversion** (`meshconverter`). `AbstractMeshConverter.convert` runs six steps in order:
  1. load the file and locate the `$Nodes`/`$Elements` sections;
  2. parse the node blocks into a node array;
  3. parse the element blocks of the dimension's element type (triangles in 2D, tetrahedra in 3D);
     in 2D the orientation is then fixed;
  4. detect the boundary facets, which are the edges (2D) or faces (3D) that occur exactly once;
  5. drop the unused nodes and renumber every element;
  6. write the MTC text: header, nodes, main elements, boundary elements.

  `MeshConverterFactory` chooses the dimension (preset or detected from the z coordinates) and
  the converter, and names the output file.
- **MTC reading** (`fileparser`). `MeshFileParser.parseFile2TriangleMesh` reads an MTC file into a
  `MeshResolution`. A `MeshResolution` holds three `CFDTriangleMesh` buffers (full, reduced and
  surface), and reduces a mesh of more than 250000 tetrahedra by keeping every k-th one.
- **OpenGL hand-off** (`opengl`). `MeshDataAdapter.fromCFDMesh` turns a `CFDTriangleMesh` into a
  `MeshData` record.
- **The scene's object registry** (`controller/MeshObjectManager`).
- **The file-name, message and dimension helpers** of `util/UtilityClass`.

Each Java file is a Dafny module.

- Objects whose fields the Java code updates are Dafny classes: `MeshConverter`,
  `CFDTriangleMesh`, `MeshResolution` and `MeshObjectManager`.
- Arrays that the Java code fills or rewrites in place stay `array`s: nodes, elements,
  `oldToNewIndex`, `used[]` and the edge/face arrays.
- The 2D and 3D subclasses become one `MeshConverter` class with a dimension constant. Their
  per-dimension hooks live in modules `MeshConverter2D` and `MeshConverter3D`.
- The counting map shared by both boundary detections is module `BoundaryCounting`. It is
  generic over the key function (`EdgeKey` or `FaceKey`).
- `JavaText` models the JDK string operations the code relies on: `trim`, `split`, `indexOf`,
  `Integer.parseInt` and `Integer.toString`.
- `Outcomes` holds the `Option`/`Result` types. The exceptions the Java code throws become any
  of: `Err` values; a failed `Outcome`; `ArrayIndexOutOfBounds`; `StringIndexOutOfBounds`;
  `NumberFormatException` stand-ins.

The central properties proved are:

- **Section parse.** The block scans lay the coordinate and element lines out as the format says.
  The parsed ranges fill disjoint slots that cover the node array, so the parallel fill order
  cannot matter.
- **Boundary.** The detected boundary is exactly the set of facets whose sorted key occurs once
  among all facets. Each is kept in its original winding, and no key appears twice.
- **Compaction.** The node compaction keeps the original order of the surviving nodes. After it,
  every element index names a kept node (or is 0, which is never renumbered), and every kept
  node is named by some element.
- **Conversion.** `convert` succeeds exactly when the trimmed input lines parse. That means
  the node header and block scan read, every coordinate line and every wanted element line is
  well formed, the 2D orientation fix finds no degenerate triangle, and every element index is at
  most the node count (`ConversionSucceeds`). On success the output is the MTC layout of the
  compacted nodes and of the renumbered main and boundary elements parsed from those lines
  (`ConvertsTo`). The parse determines the nodes and the mains (`NodesParsedUnique`,
  `MainsParsedUnique`), so the output is a function of the input.
- **Round trip.** Reading that output back with `MeshFileParser` yields the written points (z = 0
  in 2D) and one face line per written element, under two conditions. First, the coordinate
  format and parse are inverses on every written coordinate, and the formatted text has no space
  (`NodesReadBack`). `ReadsBackSatisfiable` shows that this condition can be met. Second, the
  counts and indices are 32-bit integers. `UtilityClass.detectDimensionImportCase` reads the
  dimension back from it.
- **Reduction.** The reduction factor is the ceiling of the header's tetrahedron count divided
  by 250000. When the file holds no more tetrahedron lines than its header announces, a reduced
  mesh keeps at most 250000 tetrahedra. The Java code does not check that count (see Left out).
- **OpenGL indices.** `fromCFDMesh` extracts every even face slot. For a mesh built with
  `addTriangle` these are exactly the triangles' vertex ids.

## Model


| member | source | states |
|---|---|---|
| AbstractMeshConverter.LastIndexOrSpec | src/main/java/com/softpath/riverpath/meshconverter/AbstractMeshConverter.java:152-159 | the recorded marker position is the last line equal to the marker, and the initial value exactly when no line is |
| AbstractMeshConverter.LocateSections | src/main/java/com/softpath/riverpath/meshconverter/AbstractMeshConverter.java:152-159 | the one-pass loop over the lines leaves each of the four section indices at the last occurrence of its marker, else unchanged |
| AbstractMeshConverter.LoadLines | src/main/java/com/softpath/riverpath/meshconverter/AbstractMeshConverter.java:148-164 | the loaded lines are the trimmed input lines and the four markers are located in them |
| AbstractMeshConverter.MeshConverter.LoadFileAndLocateSections | src/main/java/com/softpath/riverpath/meshconverter/AbstractMeshConverter.java:148-164 | the converter's lines and section fields become the trimmed lines and the last marker positions |
| AbstractMeshConverter.MeshConverter.constructor | src/main/java/com/softpath/riverpath/meshconverter/AbstractMeshConverter.java:31-49 | a new converter has no lines, zero section indices and empty node and element arrays |
| AbstractMeshConverter.MeshConverter.ReadNodeCount | src/main/java/com/softpath/riverpath/meshconverter/AbstractMeshConverter.java:195-197 | the node total is token 1 of the line after `$Nodes`; a missing line or token, a non-integer or a negative count is an error |
| AbstractMeshConverter.ScanNodeBlocks | src/main/java/com/softpath/riverpath/meshconverter/AbstractMeshConverter.java:199-215 | the block-scan loop yields exactly the ranges (or the error) of the node-block grammar, stopping at the end marker, an empty or `$` line, or a short header |
| AbstractMeshConverter.ReadNodeBlockHeader | src/main/java/com/softpath/riverpath/meshconverter/AbstractMeshConverter.java:201-213 | one iteration of the node scan: no block, a bad header, or a block whose coordinate lines follow its tag lines |
| AbstractMeshConverter.NodeRangesLayout | src/main/java/com/softpath/riverpath/meshconverter/AbstractMeshConverter.java:199-215 | each scanned range follows a block header announcing its count, and its destination offset is the running total of the counts before it |
| AbstractMeshConverter.RangesDisjoint | src/main/java/com/softpath/riverpath/meshconverter/AbstractMeshConverter.java:207-212 | ranges laid out by running totals occupy disjoint destination slots |
| AbstractMeshConverter.RangeWithinTotal | src/main/java/com/softpath/riverpath/meshconverter/AbstractMeshConverter.java:207-212 | every range ends within the total of all counts |
| AbstractMeshConverter.RangesCover | src/main/java/com/softpath/riverpath/meshconverter/AbstractMeshConverter.java:217-229 | every node slot below the total is the destination of some line of some range |
| AbstractMeshConverter.NodesFilledUnique | src/main/java/com/softpath/riverpath/meshconverter/AbstractMeshConverter.java:217-229 | two node arrays that both satisfy the fill specification are equal, so the parallel fill order cannot change the result |
| AbstractMeshConverter.ParseNodeRange | src/main/java/com/softpath/riverpath/meshconverter/AbstractMeshConverter.java:219-227 | one block's loop succeeds iff each of its lines has three parseable coordinates; it then stores them at the block's slots and writes no other slot |
| AbstractMeshConverter.FillNodes | src/main/java/com/softpath/riverpath/meshconverter/AbstractMeshConverter.java:217-229 | the node array has the header's total size; the fill succeeds iff every coordinate line of every range is well formed, and then every range is parsed into its slots |
| AbstractMeshConverter.MeshConverter.ParseNodes | src/main/java/com/softpath/riverpath/meshconverter/AbstractMeshConverter.java:194-233 | header errors and scan errors are reported as such; otherwise success iff every coordinate line parses, and the new node array is the filled one of the header's size |
| AbstractMeshConverter.ScanElementBlocks | src/main/java/com/softpath/riverpath/meshconverter/AbstractMeshConverter.java:357-373 | the element scan yields exactly the ranges of blocks of the wanted type, and the total is the sum of their counts |
| AbstractMeshConverter.ReadElementBlockHeader | src/main/java/com/softpath/riverpath/meshconverter/AbstractMeshConverter.java:359-371 | one iteration of the element scan: blocks of another type are skipped, a block of the wanted type becomes a range |
| AbstractMeshConverter.ElementRangesLayout | src/main/java/com/softpath/riverpath/meshconverter/AbstractMeshConverter.java:357-373 | each element range follows a header of the wanted type announcing its count, with running-total offsets |
| AbstractMeshConverter.ParseElementRange | src/main/java/com/softpath/riverpath/meshconverter/AbstractMeshConverter.java:379-395 | one block's loop succeeds iff each line holds the element width's integers after its tag, stores them at the block's slots and writes nothing else |
| AbstractMeshConverter.FillElements | src/main/java/com/softpath/riverpath/meshconverter/AbstractMeshConverter.java:375-397 | the element array has the total size; the fill succeeds iff every element line parses, and then every range is parsed into its slots |
| AbstractMeshConverter.MeshConverter.ParseElementsParallel | src/main/java/com/softpath/riverpath/meshconverter/AbstractMeshConverter.java:356-398 | success iff some main element list is parsed from the lines, and then the array is that list. A scan error is passed on and a bad element line fails, both with the array untouched. A 2D failure after a good parse is the orientation fix's error on the filled array |
| AbstractMeshConverter.MarkUsed | src/main/java/com/softpath/riverpath/meshconverter/AbstractMeshConverter.java:240-253 | marking succeeds iff every index is within used[]; an out-of-range index is reported; on success exactly the named indices are added to the flags |
| AbstractMeshConverter.NumberUsed | src/main/java/com/softpath/riverpath/meshconverter/AbstractMeshConverter.java:255-261 | the loop numbers the used indices 1.. in order and counts them |
| AbstractMeshConverter.RenumberingIncreasing | src/main/java/com/softpath/riverpath/meshconverter/AbstractMeshConverter.java:255-261 | the renumbering is strictly increasing on used indices, so the surviving nodes keep their order and no two share a number |
| AbstractMeshConverter.RenumberingOnto | src/main/java/com/softpath/riverpath/meshconverter/AbstractMeshConverter.java:255-261 | every new number 1..newCount is the image of some used old index |
| AbstractMeshConverter.CountUsedIsCardinality | src/main/java/com/softpath/riverpath/meshconverter/AbstractMeshConverter.java:255-263 | newCount is the number of distinct used indices |
| AbstractMeshConverter.CompactNodes | src/main/java/com/softpath/riverpath/meshconverter/AbstractMeshConverter.java:265-279 | the new node array has newCount slots and holds each used node at its new number |
| AbstractMeshConverter.RenumberInPlace | src/main/java/com/softpath/riverpath/meshconverter/AbstractMeshConverter.java:281-296 | every element index is replaced in place by its new number |
| AbstractMeshConverter.CompactAndRenumber | src/main/java/com/softpath/riverpath/meshconverter/AbstractMeshConverter.java:255-296 | the compacted nodes, oldToNewIndex and both renumbered element arrays are the renumbering of the used flags, and removedCount is the number of dropped nodes |
| AbstractMeshConverter.RemoveUnused | src/main/java/com/softpath/riverpath/meshconverter/AbstractMeshConverter.java:238-299 | succeeds iff every index is at most the node count; then compaction as above; on failure the elements are untouched |
| AbstractMeshConverter.MeshConverter.RemoveUnusedNodes | src/main/java/com/softpath/riverpath/meshconverter/AbstractMeshConverter.java:238-299 | the converter's nodes, oldToNewIndex and elements become the compaction of the old state, with the removed count returned |
| AbstractMeshConverter.RenumberedIndicesValid | src/main/java/com/softpath/riverpath/meshconverter/AbstractMeshConverter.java:281-296 | after renumbering every index lies in 0..newCount, and an index is 0 exactly when it was 0 |
| AbstractMeshConverter.NoUnreferencedNodes | src/main/java/com/softpath/riverpath/meshconverter/AbstractMeshConverter.java:238-299 | every new node number is named by some renumbered main or boundary element |
| AbstractMeshConverter.CompactionResult | src/main/java/com/softpath/riverpath/meshconverter/AbstractMeshConverter.java:238-299 | after compaction all indices lie within the kept nodes and every kept node is referred to |
| AbstractMeshConverter.FormatNodeStrings | src/main/java/com/softpath/riverpath/meshconverter/AbstractMeshConverter.java:308-318 | the node-string loop produces one formatted line per node, in order |
| AbstractMeshConverter.FormatMainStrings | src/main/java/com/softpath/riverpath/meshconverter/AbstractMeshConverter.java:320-330 | the main-element loop produces one formatted line per element, in order |
| AbstractMeshConverter.FormatBoundaryStrings | src/main/java/com/softpath/riverpath/meshconverter/AbstractMeshConverter.java:332-342 | the boundary-element loop produces one formatted line per facet, in order |
| AbstractMeshConverter.MtcLinesLayout | src/main/java/com/softpath/riverpath/meshconverter/AbstractMeshConverter.java:304-354 | the MTC text is the header "nodes dim elements dim+1", then node i at line 1+i, main element i at 1+nodes+i, boundary facet i after the mains |
| AbstractMeshConverter.WriteMtc | src/main/java/com/softpath/riverpath/meshconverter/AbstractMeshConverter.java:304-354 | the written lines are the MTC layout of the nodes, mains and boundary |
| AbstractMeshConverter.MeshConverter.WriteOutput | src/main/java/com/softpath/riverpath/meshconverter/AbstractMeshConverter.java:304-354 | the output is the MTC layout of the converter's current state |
| AbstractMeshConverter.MeshConverter.DetectBoundaryElements | src/main/java/com/softpath/riverpath/meshconverter/AbstractMeshConverter.java:78-82 | the boundary array becomes the dimension's boundary of the main elements |
| AbstractMeshConverter.MeshConverter.ParseMesh | src/main/java/com/softpath/riverpath/meshconverter/AbstractMeshConverter.java:51-82 | the lines become the trimmed input and the markers their last positions. Success iff nodes and mains parse from those lines, and then the arrays hold them and the boundary array is their boundary |
| AbstractMeshConverter.MeshConverter.ParseSections | src/main/java/com/softpath/riverpath/meshconverter/AbstractMeshConverter.java:64-80 | steps two to four on the loaded lines: success iff nodes and mains parse from them, and then the arrays hold them and the boundary array is their boundary |
| AbstractMeshConverter.MeshConverter.FinishConversion | src/main/java/com/softpath/riverpath/meshconverter/AbstractMeshConverter.java:84-101 | success iff every main and boundary index is at most the node count. On success the nodes are the old ones compacted, both element arrays are renumbered, and the output is the MTC layout of that state, where every index names a kept node (or is 0) and every kept node is named |
| AbstractMeshConverter.MeshConverter.Convert | src/main/java/com/softpath/riverpath/meshconverter/AbstractMeshConverter.java:51-101 | success iff the raw lines satisfy `ConversionSucceeds`, and then the output is the one `ConvertsTo` determines from them; the final state facts as for FinishConversion |
| AbstractMeshConverter.NodesParsedUnique | src/main/java/com/softpath/riverpath/meshconverter/AbstractMeshConverter.java:194-233 | the node parse of the lines determines the node array |
| AbstractMeshConverter.MainsParsedUnique | src/main/java/com/softpath/riverpath/meshconverter/AbstractMeshConverter.java:356-398 | the element parse of the lines, with the orientation fix, determines the main element list |
| AbstractMeshConverter.NoMainsParsed | src/main/java/com/softpath/riverpath/meshconverter/AbstractMeshConverter.java:67-76 | when the filled elements fail the orientation fix, no main element list is parsed from the lines |
| AbstractMeshConverter.BoundaryWithin | src/main/java/com/softpath/riverpath/meshconverter/AbstractMeshConverter.java:78-82 | boundary facets come from the main elements, so their indices are within any bound the main elements' indices keep |
| AbstractMeshConverter.ConvertOutcome | src/main/java/com/softpath/riverpath/meshconverter/AbstractMeshConverter.java:84-101 | the renumbering succeeds iff the conversion of the raw lines succeeds, and its compacted layout is the conversion's output |
| BoundaryCounting.ExtractFacets | src/main/java/com/softpath/riverpath/meshconverter/MeshConverter2D.java:96-110 | the extraction loop writes facet j of element i at slot width*i+j, i.e. exactly the concatenated facets |
| BoundaryCounting.CountFacets | src/main/java/com/softpath/riverpath/meshconverter/MeshConverter2D.java:112-131 | the counting map holds every facet key with its exact multiplicity and an original facet of that key |
| BoundaryCounting.CollectBoundary | src/main/java/com/softpath/riverpath/meshconverter/MeshConverter2D.java:133-137 | the filtered representatives are exactly the facets whose key occurs once, in original winding, without repeated keys |
| BoundaryCounting.BoundaryFromCounts | src/main/java/com/softpath/riverpath/meshconverter/MeshConverter3D.java:96-100 | the representatives of all count-1 entries of an exact counting map form the boundary |
| BoundaryCounting.MultiplicityOneUnique | src/main/java/com/softpath/riverpath/meshconverter/MeshConverter3D.java:96-100 | a key of multiplicity one belongs to exactly one facet, so no boundary facet is listed twice |
| MeshConverter2D.KeyOfIdentifiesEdge | src/main/java/com/softpath/riverpath/meshconverter/MeshConverter2D.java:157-181 | two edges have the same EdgeKey iff they have the same endpoints, in either order |
| MeshConverter2D.KeyOfIsSortedEdge | src/main/java/com/softpath/riverpath/meshconverter/MeshConverter2D.java:160-169 | the key holds the edge's endpoints in ascending order |
| MeshConverter2D.FlipIsInvolution | src/main/java/com/softpath/riverpath/meshconverter/MeshConverter2D.java:79-85 | swapping slots 1 and 2 twice restores a triangle |
| MeshConverter2D.FlipKeepsEdgeKeys | src/main/java/com/softpath/riverpath/meshconverter/MeshConverter2D.java:79-85 | a flipped triangle has the same three edge keys, so the flip cannot change the boundary |
| MeshConverter2D.SwapNegatesArea | src/main/java/com/softpath/riverpath/meshconverter/MeshConverter2D.java:69-76 | swapping two corners negates the z of the cross product |
| MeshConverter2D.FixedFirstTriangleIsClockwise | src/main/java/com/softpath/riverpath/meshconverter/MeshConverter2D.java:61-90 | after the fix the first triangle has a non-positive signed area (clockwise or degenerate) |
| MeshConverter2D.FixedOrientationFails | src/main/java/com/softpath/riverpath/meshconverter/MeshConverter2D.java:64-67 | the check fails exactly when the first triangle names a node outside the array |
| MeshConverter2D.CheckAndFixNormals | src/main/java/com/softpath/riverpath/meshconverter/MeshConverter2D.java:61-90 | the triangles become all flipped when the first is counter-clockwise, else stay; a missing node is an error with the triangles untouched |
| MeshConverter2D.DetectBoundaryElements | src/main/java/com/softpath/riverpath/meshconverter/MeshConverter2D.java:93-138 | the result is the boundary of the triangles' edges (tri[0]-tri[1], tri[1]-tri[2], tri[2]-tri[0]) under EdgeKey |
| MeshConverter2D.FormatsAreWords | src/main/java/com/softpath/riverpath/meshconverter/MeshConverter2D.java:146-153 | a triangle line is its three indices and an edge line its two indices and 0, space separated with a trailing space |
| MeshConverter3D.KeyOfIdentifiesFace | src/main/java/com/softpath/riverpath/meshconverter/MeshConverter3D.java:120-156 | two faces have the same FaceKey iff they have the same three vertices in any order |
| MeshConverter3D.KeyOfIsSortedFace | src/main/java/com/softpath/riverpath/meshconverter/MeshConverter3D.java:123-143 | the three compare-and-swap steps sort the face's vertices |
| MeshConverter3D.FacesConsistentlyOriented | src/main/java/com/softpath/riverpath/meshconverter/MeshConverter3D.java:59-69 | every edge of each of the four extracted faces is traversed in the opposite direction by another face of the same tetrahedron |
| MeshConverter3D.DetectBoundaryElements | src/main/java/com/softpath/riverpath/meshconverter/MeshConverter3D.java:54-101 | the result is the boundary of the tetrahedra's faces under FaceKey |
| MeshConverter3D.FormatsAreWords | src/main/java/com/softpath/riverpath/meshconverter/MeshConverter3D.java:109-116 | a tetrahedron line is its four indices and a face line its three indices and 0 |
| MeshConverterFactory.DimensionFor | src/main/java/com/softpath/riverpath/meshconverter/MeshConverterFactory.java:113-120 | 2 and 3 select a dimension of that value; anything else is the unsupported-dimension error |
| MeshConverterFactory.Create | src/main/java/com/softpath/riverpath/meshconverter/MeshConverterFactory.java:113-120 | a fresh, empty converter of the requested dimension, or the unsupported-dimension error for any other value |
| MeshConverterFactory.ScanNodeSection | src/main/java/com/softpath/riverpath/meshconverter/MeshConverterFactory.java:62-92 | the result is 3 iff some line of the first Nodes section has three tokens and a parseable nonzero third, else 2 |
| MeshConverterFactory.DetectDimension | src/main/java/com/softpath/riverpath/meshconverter/MeshConverterFactory.java:57-93 | the same over the lines with carriage returns removed and trimmed |
| MeshConverterFactory.Convert | src/main/java/com/softpath/riverpath/meshconverter/MeshConverterFactory.java:34-47 | an unsupported preset is an error. Otherwise success iff the raw lines convert in the chosen dimension (the preset, else the detected one), with the text they convert to, the .t name, and a file that reads back the chosen dimension |
| MeshConverterFactory.ConvertIn | src/main/java/com/softpath/riverpath/meshconverter/MeshConverterFactory.java:41-46 | for a chosen dimension: unsupported is an error; otherwise success iff the raw lines convert in it, with the text they convert to, the .t name, and a file that reads back that dimension |
| MeshFileParser.Decrement32 | src/main/java/com/softpath/riverpath/fileparser/MeshFileParser.java:86-88 | the 32-bit `parseInt(..) - 1`: -1 exactly for 0, and one less except at Integer.MIN_VALUE, where it wraps |
| MeshFileParser.IntAt | src/main/java/com/softpath/riverpath/fileparser/MeshFileParser.java:34-36 | token k as a 32-bit integer, an error when absent or not an integer |
| MeshFileParser.HeaderOf | src/main/java/com/softpath/riverpath/fileparser/MeshFileParser.java:33-36 | the header reads iff tokens 0, 1 and 2 of the first line are integers, and is those numbers |
| MeshFileParser.HeaderOfConverterHeader | src/main/java/com/softpath/riverpath/fileparser/MeshFileParser.java:33-36 | the header line the converter writes reads back as its node count, dimension and element count |
| MeshFileParser.NumberIn | src/main/java/com/softpath/riverpath/fileparser/MeshFileParser.java:47-53 | a substring parse: an error when the bounds are invalid (StringIndexOutOfBounds) or the text is not a number |
| MeshFileParser.PointOf | src/main/java/com/softpath/riverpath/fileparser/MeshFileParser.java:43-55 | a point line is cut at its first space (and second in 3D); x is the part before the first space, z is 0 in 2D |
| MeshFileParser.NodeLineReadsBack | src/main/java/com/softpath/riverpath/fileparser/MeshFileParser.java:43-55 | a node line the converter writes reads back as that node (z = 0 in 2D), when its own coordinates read back from their format |
| MeshFileParser.ReadsBackSatisfiable | src/main/java/com/softpath/riverpath/fileparser/MeshFileParser.java:43-55 | the per-coordinate read-back condition holds for a concrete format/parse pair on concrete nodes, and fails for a coordinate that pair does not print |
| MeshFileParser.Face2DOf | src/main/java/com/softpath/riverpath/fileparser/MeshFileParser.java:84-91 | a 2D line reads iff its first three tokens are integers, and is their 0-based triangle |
| MeshFileParser.Face3DOf | src/main/java/com/softpath/riverpath/fileparser/MeshFileParser.java:93-106 | a 3D line reads iff four tokens are integers; a fourth of 0 (last == -1) makes a surface triangle, else a tetrahedron |
| MeshFileParser.TetraLineReadsBack | src/main/java/com/softpath/riverpath/fileparser/MeshFileParser.java:93-106 | a tetrahedron line the converter writes reads back as its 0-based tetrahedron (a surface when the fourth index is 0) |
| MeshFileParser.SurfaceLineReadsBack | src/main/java/com/softpath/riverpath/fileparser/MeshFileParser.java:93-106 | a boundary face line the converter writes reads back as a 0-based surface triangle |
| MeshFileParser.TriangleLineReadsBack | src/main/java/com/softpath/riverpath/fileparser/MeshFileParser.java:84-91 | a 2D triangle line reads back as its 0-based triangle |
| MeshFileParser.EdgeLineReadsBack | src/main/java/com/softpath/riverpath/fileparser/MeshFileParser.java:84-91 | a 2D edge line "a b 0" reads back with third vertex -1, the marker add2DTriangle treats as an edge |
| MeshFileParser.FacesOfEach | src/main/java/com/softpath/riverpath/fileparser/MeshFileParser.java:69-82 | the element lines read iff each line reads, and line i yields face i |
| MeshFileParser.ParseFaces2D | src/main/java/com/softpath/riverpath/fileparser/MeshFileParser.java:84-91 | the 2D line's triangle is added to the resolution, or its parse error is returned |
| MeshFileParser.ParseFaces3D | src/main/java/com/softpath/riverpath/fileparser/MeshFileParser.java:93-106 | the 3D line's surface or tetrahedron is added to the resolution, or its parse error is returned |
| MeshFileParser.HandleFaces | src/main/java/com/softpath/riverpath/fileparser/MeshFileParser.java:69-82 | every remaining line is applied in order, or the first failing line's error is returned |
| MeshFileParser.ApplyFacesCounts | src/main/java/com/softpath/riverpath/fileparser/MeshFileParser.java:69-106 | the full mesh gains one triangle per line plus three per tetrahedron, the surface one per boundary line, and the tetra counter one per tetrahedron |
| MeshFileParser.ReducedMeshWithinLimit | src/main/java/com/softpath/riverpath/fileparser/MeshFileParser.java:93-106 | when reduced and the lines hold at most the header's tetrahedron count, the reduced mesh holds at most 4 * 250000 tetrahedron triangles besides the boundary lines |
| MeshFileParser.ReadPoints | src/main/java/com/softpath/riverpath/fileparser/MeshFileParser.java:42-56 | the point loop adds exactly the decoded points, or returns the first failing line's error |
| MeshFileParser.ParseFile2TriangleMesh | src/main/java/com/softpath/riverpath/fileparser/MeshFileParser.java:28-67 | the result is the header's resolution with the points, the element lines and one texture coordinate applied, or the first error |
| MeshFileParser.ConverterOutputReadsBack | src/main/java/com/softpath/riverpath/meshconverter/AbstractMeshConverter.java:304-354 | reading the converter's MTC text yields the written points (z = 0 in 2D), then one face per main element and one per boundary facet, when the written coordinates read back from their format |
| MeshResolutions.ReductionFactor | src/main/java/com/softpath/riverpath/fileparser/MeshResolution.java:43 | the factor is the ceiling of nbTetra / 250000: at least 2, and (f-1)*250000 < nbTetra <= f*250000 |
| MeshResolutions.Initial | src/main/java/com/softpath/riverpath/fileparser/MeshResolution.java:34-47 | three empty meshes, reduced iff nbTetra > 250000, with the ceiling factor |
| MeshResolutions.OperationsKeepConsistent | src/main/java/com/softpath/riverpath/fileparser/MeshResolution.java:57-113 | every operation keeps the reduction flag and factor consistent |
| MeshResolutions.KeptIsCeiling | src/main/java/com/softpath/riverpath/fileparser/MeshResolution.java:94-105 | of n tetrahedra, those with counter % factor == 0 number ceil(n / factor) |
| MeshResolutions.KeptWithinLimit | src/main/java/com/softpath/riverpath/fileparser/MeshResolution.java:39-46 | with the ceiling factor, at most 250000 of up to nbTetra tetrahedra are kept |
| MeshResolutions.MeshResolution.constructor | src/main/java/com/softpath/riverpath/fileparser/MeshResolution.java:34-47 | three fresh empty meshes, no colour, the origin as position, and the initial reduction state |
| MeshResolutions.MeshResolution.ReducedMesh | src/main/java/com/softpath/riverpath/fileparser/MeshResolution.java:49-55 | the reduced mesh exactly when reduced, else the full mesh |
| MeshResolutions.MeshResolution.AddPoint | src/main/java/com/softpath/riverpath/fileparser/MeshResolution.java:57-63 | the point goes to the full and surface meshes, and to the reduced one only when reduced |
| MeshResolutions.MeshResolution.Add2DTriangle | src/main/java/com/softpath/riverpath/fileparser/MeshResolution.java:65-75 | vertex3 == -1 adds (v1, v2, v1) to surface, full and (when reduced) reduced; otherwise the triangle goes to the full mesh only |
| MeshResolutions.MeshResolution.AddTriangleSurface | src/main/java/com/softpath/riverpath/fileparser/MeshResolution.java:77-83 | the triangle goes to full and surface, and to reduced when reduced |
| MeshResolutions.MeshResolution.AddTetraFaces | src/main/java/com/softpath/riverpath/fileparser/MeshResolution.java:85-107 | the four faces go to the full mesh; when reduced the counter advances and the faces also go to the reduced mesh when its old value is a multiple of the factor |
| MeshResolutions.MeshResolution.AddTexCoords | src/main/java/com/softpath/riverpath/fileparser/MeshResolution.java:109-113 | the coordinate pair (1, 1) is appended to each of the three meshes |
| CFDMeshes.PointsOfAt | src/main/java/com/softpath/riverpath/fileparser/CFDTriangleMesh.java:21-24 | slot 3i+j of the points buffer is coordinate j of point i |
| CFDMeshes.FacesOfAt | src/main/java/com/softpath/riverpath/fileparser/CFDTriangleMesh.java:33-36 | slot 6i+2j of the faces buffer is vertex j of triangle i, and slot 6i+2j+1 is texture index 0 |
| CFDMeshes.TextureSlotsAreZero | src/main/java/com/softpath/riverpath/fileparser/CFDTriangleMesh.java:33-36 | every odd faces slot is 0 |
| CFDMeshes.VertexIdsAt | src/main/java/com/softpath/riverpath/fileparser/CFDTriangleMesh.java:43-49 | slot 3i+j of the vertex-id list is vertex j of triangle i |
| CFDMeshes.EvenSlotsAreVertexIds | src/main/java/com/softpath/riverpath/fileparser/CFDTriangleMesh.java:33-36 | faces slot 2k is vertex id k |
| CFDMeshes.CFDTriangleMesh.constructor | src/main/java/com/softpath/riverpath/fileparser/CFDTriangleMesh.java:21-36 | a new mesh has empty buffers |
| CFDMeshes.CFDTriangleMesh.AddPoint | src/main/java/com/softpath/riverpath/fileparser/CFDTriangleMesh.java:21-24 | x, y, z are appended to the points and the faces keep their contents |
| CFDMeshes.CFDTriangleMesh.AddTriangle | src/main/java/com/softpath/riverpath/fileparser/CFDTriangleMesh.java:33-36 | v1, 0, v2, 0, v3, 0 is appended to the faces and the points keep their contents |
| CFDMeshes.CFDTriangleMesh.AddTexCoords | src/main/java/com/softpath/riverpath/fileparser/MeshResolution.java:109-113 | the pair is appended to the texture coordinates, leaving points and faces alone |
| OpenGLMeshData.MeshData.VertexCount | src/main/java/com/softpath/riverpath/opengl/MeshData.java:8-10 | the count of whole (x, y, z) triples in the vertex array |
| OpenGLMeshData.MeshData.TriangleCount | src/main/java/com/softpath/riverpath/opengl/MeshData.java:12-14 | the count of whole index triples |
| MeshDataAdapter.VertexSlots | src/main/java/com/softpath/riverpath/opengl/MeshDataAdapter.java:25-30 | the stride-2 loop fills |faces|/2 indices with the even slots iff the faces length is even; an odd length overruns the array and is the out-of-bounds error at slot |faces|/2 |
| MeshDataAdapter.VertexReadFault | src/main/java/com/softpath/riverpath/opengl/MeshDataAdapter.java:45-47 | reading vertex v's three coordinates faults iff v is negative or not below the whole-vertex count, at an out-of-range slot |
| MeshDataAdapter.ComputeNormals | src/main/java/com/softpath/riverpath/opengl/MeshDataAdapter.java:38-77 | succeeds iff the index count is a multiple of three and every index names a whole vertex, else the out-of-bounds error; on success three slots per whole vertex, each given by the normal function |
| MeshDataAdapter.BuiltMeshNormalsDefined | src/main/java/com/softpath/riverpath/opengl/MeshDataAdapter.java:38-64 | for a mesh built by addPoint/addTriangle the normals are computable iff every triangle's vertex ids name points |
| MeshDataAdapter.EvenSlotsOfFaces | src/main/java/com/softpath/riverpath/opengl/MeshDataAdapter.java:25-30 | the even slots of a faces buffer built by addTriangle are exactly the triangles' vertex ids |
| MeshDataAdapter.FromCFDMesh | src/main/java/com/softpath/riverpath/opengl/MeshDataAdapter.java:16-36 | succeeds iff the faces length is even and the even slots are valid vertex ids in triples, else the out-of-bounds error. On success the vertices are the points, the indices the even face slots and the normals computed from them. For a mesh built by addPoint/addTriangle, success iff the triangles name points, and then the indices are its vertex ids and the counts its point and triangle counts |
| MeshObjectManagers.DisplayNameAccepted | src/main/java/com/softpath/riverpath/controller/MeshObjectManager.java:59 | a name is accepted iff it is non-null and has a character that trim keeps |
| MeshObjectManagers.MeshObjectManager.constructor | src/main/java/com/softpath/riverpath/controller/MeshObjectManager.java:26-37 | all five maps are empty and no colour has been handed out |
| MeshObjectManagers.MeshObjectManager.AddObject | src/main/java/com/softpath/riverpath/controller/MeshObjectManager.java:42-53 | the mesh gets the position and the existing colour or else the next one, and is stored under the id; the other maps are unchanged |
| MeshObjectManagers.MeshObjectManager.SetDisplayName | src/main/java/com/softpath/riverpath/controller/MeshObjectManager.java:58-62 | an accepted name is stored under the id, a null or blank one changes nothing |
| MeshObjectManagers.MeshObjectManager.SetDisplayMode | src/main/java/com/softpath/riverpath/controller/MeshObjectManager.java:67-69 | the mode is stored under the id and read back by getDisplayMode |
| MeshObjectManagers.MeshObjectManager.GetDisplayMode | src/main/java/com/softpath/riverpath/controller/MeshObjectManager.java:74-76 | the stored mode, MESH when none is stored |
| MeshObjectManagers.MeshObjectManager.GetDisplayName | src/main/java/com/softpath/riverpath/controller/MeshObjectManager.java:81-83 | the stored name, the id itself when none is stored |
| MeshObjectManagers.MeshObjectManager.RemoveObject | src/main/java/com/softpath/riverpath/controller/MeshObjectManager.java:88-92 | the id leaves the mesh, name and mode maps (so the getters fall back to their defaults); shapes and arrows stay |
| MeshObjectManagers.MeshObjectManager.AddShape | src/main/java/com/softpath/riverpath/controller/MeshObjectManager.java:97-99 | the shape is stored under the id, nothing else changes |
| MeshObjectManagers.MeshObjectManager.RemoveShape | src/main/java/com/softpath/riverpath/controller/MeshObjectManager.java:104-106 | the id leaves the shapes, nothing else changes |
| MeshObjectManagers.MeshObjectManager.AddNormalArrow | src/main/java/com/softpath/riverpath/controller/MeshObjectManager.java:111-113 | the arrow is stored under the id, nothing else changes |
| MeshObjectManagers.MeshObjectManager.RemoveNormalArrow | src/main/java/com/softpath/riverpath/controller/MeshObjectManager.java:118-120 | the id leaves the arrows, nothing else changes |
| MeshObjectManagers.MeshObjectManager.Clear | src/main/java/com/softpath/riverpath/controller/MeshObjectManager.java:125-129 | meshes, names and modes are emptied, so there are no objects and every getter returns its default; shapes and arrows stay |
| MeshObjectManagers.MeshObjectManager.HasObjects | src/main/java/com/softpath/riverpath/controller/MeshObjectManager.java:134-136 | true iff some id has a mesh |
| MeshObjectManagers.MeshObjectManager.GetExistingColor | src/main/java/com/softpath/riverpath/controller/MeshObjectManager.java:141-144 | the colour of the id's mesh, none for an unknown id |
| UtilityClass.IndexOfExtension | src/main/java/com/softpath/riverpath/util/UtilityClass.java:262-263 | the last dot after the last path separator, or -1 when there is none |
| UtilityClass.MshExtensionIsSuffix | src/main/java/com/softpath/riverpath/util/UtilityClass.java:262-263 | the extension is "msh" iff the name ends in ".msh", and removing it drops those four characters |
| UtilityClass.BuildTExtensionName | src/main/java/com/softpath/riverpath/util/UtilityClass.java:261-267 | a ".msh" name gets ".t" in place of ".msh", any other name is returned unchanged |
| UtilityClass.BuildTExtensionNameIdempotent | src/main/java/com/softpath/riverpath/util/UtilityClass.java:261-267 | applying the renaming twice is the same as once |
| UtilityClass.ShouldDisplayError | src/main/java/com/softpath/riverpath/util/UtilityClass.java:245-259 | a line is shown iff it contains none of the eight filtered warning phrases |
| UtilityClass.ShouldDisplayErrorOccurrences | src/main/java/com/softpath/riverpath/util/UtilityClass.java:245-259 | the same, with containment as an occurrence at some position |
| UtilityClass.DetectDimensionImportCase | src/main/java/com/softpath/riverpath/util/UtilityClass.java:45-52 | the dimension is token 1 of the trimmed, whitespace-split first line; an empty file, a missing token or a non-integer is an error |
| UtilityClass.DetectDimensionOfConverterOutput | src/main/java/com/softpath/riverpath/util/UtilityClass.java:45-52 | on any MTC text the converter writes, the dimension read back is the converter's dimension |
| UtilityClass.DimensionOfHeaderLine | src/main/java/com/softpath/riverpath/util/UtilityClass.java:45-52 | a file whose first line is the converter's header reads back the header's dimension |
| UtilityClass.BuildMessage | src/main/java/com/softpath/riverpath/util/UtilityClass.java:54-56 | the message itself without arguments, else the formatted message |

## Left out

- Parallelism: every ForkJoinPool / parallel-stream step (node fill, element fill, edge and face extraction, counting, marking, compaction, renumbering, output strings) is modelled as a sequential loop. `NodesFilledUnique` and the disjoint-range lemmas show that the order of the node fill cannot matter; the ConcurrentHashMap `compute` is modelled as one sequential count per facet.
- The boundary order follows the map's enumeration, which Java leaves unspecified; the model picks the remaining keys in an arbitrary order, and `CollectBoundary` states only what holds for every order.
- Floating point: coordinates are `real`. `Double.parseDouble` and the `%.16f` format are function parameters. The 2D orientation decision uses exact arithmetic, and the (float) casts in `CFDTriangleMesh.addPoint` are not modelled.
- MeshDataAdapter.ComputeNormals: the values of the cross products, their accumulation and the normalisation (MeshDataAdapter.java:49-76) are floating-point work. The model takes each normal slot from a parameter `normalAt`. It states the out-of-bounds failure, the array's length and that every slot is given by `normalAt`, but not the values.
- File I/O, ProgressReporter messages, timing and logging are left out; files are given as sequences of lines and results are returned instead of written. The `\r` stripping of detectDimension is modelled; the line splitting of a reader is not.
- `numThreads` and the pool of the converter constructors are not modelled; they affect only scheduling.
- Whitespace splitting and trimming are computed up front for every line (the `fields` ghost view of the converter); they are pure, so this does not change what is read.
- Negative counts in GMSH block headers are reported as an error; the Java code would loop or index backwards.
- `Integer.parseInt` is modelled for optional sign and ASCII digits with the 32-bit range check; other Unicode digits are not accepted.
- `Decrement32` models the 32-bit wrap only of `parseInt(..) - 1`; the other int arithmetic of the core is unbounded, the sizes involved being far below 2^31.
- MeshResolution's `AtomicInteger` counter is modelled as an unbounded non-negative integer (no wrap after 2^31 tetrahedra), and the double `reductionFactor` as its integer value, which it always is.
- MeshObjectManagers.MeshObjectManager.AddObject: the position is given already scaled; the `parseDouble` of the coordinates with its 0.0 fallback, the scale factor and the sign flip of y are floating-point work on JavaFX values and are not modelled.
- ColorObjectHandler is not part of this model; its colour sequence is the parameter `nextColor`, with a counter of colours handed out. DisplayMode.java is not part of this model; its two values are the datatype `DisplayMode`.
- JavaFX `Shape`, `Group`, `Color` and `Point3D` are opaque type parameters or plain records.
- `DomainProperties` (preset dimension, 3D setting, scale factor) is passed as parameters.
- OpenGLViewer and the other controllers are outside the core.
- MeshFileParser.ConverterOutputReadsBack: the round trip holds only under two assumptions. First, the `%.16f` format and `Double.parseDouble` are inverses on each written coordinate and print no space (`NodesReadBack`). Second, every count and index is a 32-bit integer. A real `%.16f` rounds, so its read-back is exact only for coordinates with a 16-digit decimal form.
- MeshDataAdapter.FromCFDMesh: the indices equal the triangles' vertex ids only for meshes built through `addPoint`/`addTriangle` (the `Valid` view). For arbitrary buffers it states the even-slot extraction.
- MeshFileParser.ReducedMeshWithinLimit: the 250000 bound needs the file to hold at most as many tetrahedron lines as its header's element count. The Java code does not check this, so a header that understates the count gives a larger reduced mesh.
- AbstractMeshConverter.MeshConverter.Convert: states when the conversion fails, but not which error value it returns then. The steps `ReadNodeCount`, `ParseNodes`, `ParseElementsParallel` and `FinishConversion` state their own error values.
