/**
 * Bounding boxes and the pairwise overlap test of the proximity analyzer
 * (`ProximityAnalyzer._boxes_overlap`).
 */
module Geometry {

  /**
   * An axis-aligned bounding box `[x1, y1, x2, y2]` in frame pixel
   * coordinates, as the detector reports it. The detector normally gives
   * `x1 < x2` and `y1 < y2`, but nothing checks it, so `Box` does not demand it.
   */
  datatype Box = Box(x1: real, y1: real, x2: real, y2: real)

  /** A box with positive width and height. */
  predicate WellFormed(b: Box) {
    b.x1 < b.x2 && b.y1 < b.y2
  }

  /** The point (px, py) lies strictly inside `b`. */
  predicate Inside(px: real, py: real, b: Box) {
    b.x1 < px < b.x2 && b.y1 < py < b.y2
  }

  /**
   * `_boxes_overlap`: the boxes overlap on the x axis and on the y axis,
   * each test being strict, so boxes that only share an edge do not overlap.
   */
  predicate BoxesOverlap(a: Box, b: Box) {
    var xOverlap := a.x1 < b.x2 && a.x2 > b.x1;
    var yOverlap := a.y1 < b.y2 && a.y2 > b.y1;
    xOverlap && yOverlap
  }

  /** The test does not depend on the order of its two arguments. */
  lemma BoxesOverlapSymmetric(a: Box, b: Box)
    ensures BoxesOverlap(a, b) <==> BoxesOverlap(b, a)
  {
  }

  /** Boxes that touch along an edge (an equal coordinate) do not overlap. */
  lemma TouchingBoxesDoNotOverlap(a: Box, b: Box)
    requires a.x2 == b.x1 || a.x1 == b.x2 || a.y2 == b.y1 || a.y1 == b.y2
    ensures !BoxesOverlap(a, b) && !BoxesOverlap(b, a)
  {
  }

  /**
   * For well-formed boxes the test is the geometric one: the boxes overlap
   * exactly when some point lies strictly inside both, i.e. when their
   * intersection has positive area.
   */
  lemma OverlapIffCommonInterior(a: Box, b: Box)
    requires WellFormed(a) && WellFormed(b)
    ensures BoxesOverlap(a, b) <==> exists px: real, py: real :: Inside(px, py, a) && Inside(px, py, b)
  {
    if BoxesOverlap(a, b) {
      var left := if a.x1 < b.x1 then b.x1 else a.x1;
      var right := if a.x2 < b.x2 then a.x2 else b.x2;
      var bottom := if a.y1 < b.y1 then b.y1 else a.y1;
      var top := if a.y2 < b.y2 then a.y2 else b.y2;
      var px, py := (left + right) / 2.0, (bottom + top) / 2.0;
      assert Inside(px, py, a) && Inside(px, py, b);
    }
  }

  /**
   * The test only compares coordinates, so a zero-width box lying strictly
   * inside another box is reported as overlapping it, although it shares no
   * interior point with it.
   */
  lemma DegenerateBoxOverlaps()
    ensures var sliver, frame := Box(5.0, 2.0, 5.0, 8.0), Box(0.0, 0.0, 10.0, 10.0);
      !WellFormed(sliver) && BoxesOverlap(sliver, frame)
      && !(exists px: real, py: real :: Inside(px, py, sliver))
  {
  }

  /**
   * Boxes sharing an edge or only a corner do not overlap; a shifted copy and
   * a contained box do.
   */
  lemma EdgeAndCornerExamples()
    ensures !BoxesOverlap(Box(0.0, 0.0, 10.0, 10.0), Box(10.0, 0.0, 20.0, 10.0))
    ensures !BoxesOverlap(Box(0.0, 0.0, 10.0, 10.0), Box(10.0, 10.0, 20.0, 20.0))
    ensures BoxesOverlap(Box(0.0, 0.0, 10.0, 10.0), Box(5.0, 5.0, 15.0, 15.0))
    ensures BoxesOverlap(Box(0.0, 0.0, 10.0, 10.0), Box(2.0, 2.0, 4.0, 4.0))
  {
  }
}
