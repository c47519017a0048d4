/** The nodes of the interval tree. */
module Nodes {
  import opened Interval

  datatype Color = Black | Red

  class Node {
    var iv: IntervalValue
    var max: Point
    var left: Node?
    var right: Node?
    var parent: Node?
    var c: Color

    constructor (iv: IntervalValue, sentinel: Node?, c: Color)
      ensures this.iv == iv && max == iv.ivl.end && left == sentinel && right == sentinel && parent == sentinel && this.c == c
    {
      this.iv, max, this.c := iv, iv.ivl.end, c;
      left, right, parent := sentinel, sentinel, sentinel;
    }
  }
}
