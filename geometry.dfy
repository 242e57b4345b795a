/**
 * Screen geometry used by the engine: points and axis-aligned rectangles with
 * exact real coordinates in place of CoreGraphics' CGPoint and CGRect.
 */
module Geometry {

  datatype Point = Point(x: real, y: real)

  /** A rectangle given by its origin and size, like CGRect. */
  datatype Rect = Rect(x: real, y: real, w: real, h: real) {
    function MinX(): real { x }
    function MaxX(): real { x + w }
    function MidX(): real { x + w / 2.0 }
    function MinY(): real { y }
    function MaxY(): real { y + h }
    function MidY(): real { y + h / 2.0 }

    /** The closed-range test `minX...maxX ~= p.x` and `minY...maxY ~= p.y`. */
    predicate Contains(p: Point) {
      MinX() <= p.x <= MaxX() && MinY() <= p.y <= MaxY()
    }
  }

  /** The frames the layout hands out: rectangles of non-negative size. */
  type Frame = r: Rect | r.w >= 0.0 && r.h >= 0.0 witness Rect(0.0, 0.0, 0.0, 0.0)
}
