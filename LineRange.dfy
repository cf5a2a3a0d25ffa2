/** LineRange.cs declares `LineRange`, a member-for-member copy of `Range`
    (same fields, accessors, operators, `Union` and `Intersection`). */
module LineRanges {
  import Ranges

  type LineRange = Ranges.Range
}
