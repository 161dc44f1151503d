/** Value types shared by the converter stages. */
module MeshTypes {

  /** A node: three coordinates. The source stores IEEE doubles; the model uses exact reals,
      so rounding is not modelled. */
  datatype Node = Node(x: real, y: real, z: real)

  /** What `new double[n][3]` holds before a slot is written. */
  const Origin: Node := Node(0.0, 0.0, 0.0)

  /** The spatial dimension a converter handles (the 2D and 3D subclasses). */
  datatype Dimension = TwoD | ThreeD

  function DimensionValue(d: Dimension): (v: int)
    ensures v == 2 || v == 3
  {
    if d == TwoD then 2 else 3
  }

  /** One parse range found by a block scan: the first line to parse, how many lines, and the
      first slot of the destination array (an int[3] {startLine, count, targetIdx} in the source). */
  datatype Range = Range(startLine: int, count: nat, target: nat)

  /** The sum of the counts of a list of ranges. */
  function TotalCount(rs: seq<Range>): nat {
    if rs == [] then 0 else TotalCount(rs[..|rs| - 1]) + rs[|rs| - 1].count
  }
}
